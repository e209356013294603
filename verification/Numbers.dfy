/** Printing numbers (lib/printfmt.cc) and reading them back (lib/strtol.cc). */
module Numbers {

  // printNumber

  function DigitChar(k: nat, capital: bool): char
    requires k < 16
  {
    if capital then "0123456789ABCDEF"[k] else "0123456789abcdef"[k]
  }

  /** The digits of n, the most significant first. */
  function Digits(n: nat, base: nat, capital: bool): (s: string)
    requires 2 <= base <= 16
    ensures |s| > 0
    decreases n
  {
    if n < base then [DigitChar(n, capital)] else Digits(n / base, base, capital) + [DigitChar(n % base, capital)]
  }

  function Padding(count: int, pad: char): (s: string)
    ensures |s| == if count > 0 then count else 0
    ensures forall i :: 0 <= i < |s| ==> s[i] == pad
  {
    seq(if count > 0 then count else 0, i => pad)
  }

  /** A number in a field of the given width, padded on the left. */
  function Rendered(n: nat, base: nat, width: int, pad: char, capital: bool): (s: string)
    requires 2 <= base <= 16
    ensures |s| == if width > |Digits(n, base, capital)| then width else |Digits(n, base, capital)|
  {
    Padding(width - |Digits(n, base, capital)|, pad) + Digits(n, base, capital)
  }

  /** A number is the number without its last digit in a field that is one smaller, and that digit. */
  lemma RenderedStep(n: nat, base: nat, width: int, pad: char, capital: bool)
    requires 2 <= base <= 16
    ensures n >= base ==>
              Rendered(n, base, width, pad, capital)
              == Rendered(n / base, base, width - 1, pad, capital) + [DigitChar(n % base, capital)]
    ensures n < base ==>
              Rendered(n, base, width, pad, capital) == Padding(width - 1, pad) + [DigitChar(n % base, capital)]
  {
    hide DigitChar;
    if n < base {
      assert n % base == n;
    }
  }

  class Screen {
    var out: string

    method PutChar(c: char)
      modifies this
      ensures out == old(out) + [c]
    {
      out := out + [c];
    }

    /** The loop in front of the leading digit. */
    method PutPadding(width: int, pad: char)
      modifies this
      ensures out == old(out) + Padding(width - 1, pad)
    {
      var w := width - 1;
      ghost var k := 0;
      assert Padding(0, pad) == "";
      while w > 0
        invariant w == width - 1 - k && 0 <= k && (k <= width - 1 || k == 0) && out == old(out) + Padding(k, pad)
      {
        assert Padding(k + 1, pad) == Padding(k, pad) + [pad];
        PutChar(pad);
        w := w - 1;
        k := k + 1;
      }
      assert Padding(k, pad) == Padding(width - 1, pad);
    }

    /** printNumber: the recursion narrows the field, and the leading digit pads what is left. */
    method PrintNumber(num: nat, base: nat, width: int, pad: char, capital: bool)
      requires 2 <= base <= 16
      modifies this
      ensures out == old(out) + Rendered(num, base, width, pad, capital)
      decreases num
    {
      hide Rendered, DigitChar, Padding, Digits;
      RenderedStep(num, base, width, pad, capital);
      if num >= base {
        PrintNumber(num / base, base, width - 1, pad, capital);
      } else {
        PutPadding(width, pad);
      }
      PutChar(DigitChar(num % base, capital));
    }

    /** The %d directive for a 32-bit int. */
    method PrintInt(num: int, width: int, pad: char)
      modifies this
      ensures out == old(out) + Printed(num, width, pad)
    {
      hide Rendered;
      var n := num;
      if n < 0 {
        PutChar('-');
        n := -n;
      }
      PrintNumber(n, 10, width, pad, false);
    }
  }

  /** What %d prints: the sign stands before the field. */
  function Printed(n: int, width: int, pad: char): string {
    if n < 0 then "-" + Rendered(-n, 10, width, pad, false) else Rendered(n, 10, width, pad, false)
  }

  // toLong

  /** Character i of a C string. */
  function At(s: string, i: nat): char {
    if i < |s| then s[i] else '\0'
  }

  predicate IsWhiteSpace(c: char) {
    c in {' ', '\t', '\n', '\r', '\U{0B}', '\U{0C}'}
  }

  /** The value of a digit or letter; anything else ends the number. */
  function DigitValue(c: char): int {
    if '0' <= c <= '9' then c as int - '0' as int
    else if 'A' <= c <= 'Z' then c as int - 'A' as int + 10
    else if 'a' <= c <= 'z' then c as int - 'a' as int + 10
    else -1
  }

  /** Conversion to a 32-bit long. */
  function ToInt32(x: int): int {
    var r := x % 0x1_0000_0000;
    if r < 0x8000_0000 then r else r - 0x1_0000_0000
  }

  /** Where the number starts: after the white space. */
  function SkipSpace(s: string, i: nat): (j: nat)
    ensures i <= j && !IsWhiteSpace(At(s, j)) && forall k :: i <= k < j ==> IsWhiteSpace(At(s, k))
    decreases |s| - i
  {
    if IsWhiteSpace(At(s, i)) then SkipSpace(s, i + 1) else i
  }

  predicate HasHexPrefix(s: string, i: nat, base: nat) {
    (base == 0 || base == 16) && At(s, i) == '0' && (At(s, i + 1) == 'x' || At(s, i + 1) == 'X')
  }

  /** The digits of a base from i on, added to acc. */
  function Accumulate(s: string, i: nat, base: nat, acc: int): int
    decreases |s| - i
  {
    var d := DigitValue(At(s, i));
    if d < 0 || d >= base then acc else Accumulate(s, i + 1, base, acc * base + d)
  }

  /** toLong. */
  function Parsed(s: string, base: nat): int {
    var i := SkipSpace(s, 0);
    var neg := At(s, i) == '-';
    var j := if At(s, i) == '-' || At(s, i) == '+' then i + 1 else i;
    var n :=
      if HasHexPrefix(s, j, base) then Accumulate(s, j + 2, 16, 0)
      else if base != 0 then Accumulate(s, j, base, 0)
      else Accumulate(s, j, if At(s, j) == '0' then 8 else 10, 0);
    ToInt32(if neg then -n else n)
  }

  /** toLong as the scanning loop. */
  method ToLong(s: string, base: nat) returns (r: int)
    ensures r == Parsed(s, base)
  {
    hide Accumulate;
    var i, c := 1, At(s, 0);
    while IsWhiteSpace(c)
      invariant i >= 1 && c == At(s, i - 1) && SkipSpace(s, 0) == SkipSpace(s, i - 1)
      decreases |s| - i
    {
      c := At(s, i);
      i := i + 1;
    }
    var neg := false;
    if c == '-' {
      neg := true;
      c := At(s, i);
      i := i + 1;
    } else if c == '+' {
      c := At(s, i);
      i := i + 1;
    }
    var b := base;
    if (b == 0 || b == 16) && c == '0' && (At(s, i) == 'x' || At(s, i) == 'X') {
      c := At(s, i + 1);
      i := i + 2;
      b := 16;
    } else if b == 0 {
      if c == '0' {
        b := 8;
      } else {
        b := 10;
      }
    }
    var acc := ToNumber(s, i - 1, b);
    r := ToInt32(if neg then -acc else acc);
  }

  /** The digits from i on. */
  method ToNumber(s: string, start: nat, base: nat) returns (acc: int)
    ensures acc == Accumulate(s, start, base, 0)
  {
    var i, c := start, At(s, start);
    acc := 0;
    while true
      invariant i >= start && c == At(s, i)
      invariant Accumulate(s, start, base, 0) == Accumulate(s, i, base, acc)
      decreases |s| - i
    {
      var d := DigitValue(c);
      if d < 0 || d >= base {
        break;
      }
      acc := acc * base + d;
      i := i + 1;
      c := At(s, i);
    }
  }

  // Round trips

  /** The number that a string of digits denotes. */
  ghost function Denotes(s: string, base: nat): int
    decreases |s|
  {
    if s == "" then 0 else Denotes(s[..|s| - 1], base) * base + DigitValue(s[|s| - 1])
  }

  ghost predicate AllDigits(s: string, base: nat) {
    forall i :: 0 <= i < |s| ==> 0 <= DigitValue(s[i]) < base
  }

  lemma DigitCharValue(k: nat, capital: bool)
    requires k < 16
    ensures DigitValue(DigitChar(k, capital)) == k && !IsWhiteSpace(DigitChar(k, capital))
    ensures DigitChar(k, capital) !in {'-', '+', 'x', 'X', '\0'}
  {
  }

  lemma {:induction false} DigitsDenote(n: nat, base: nat, capital: bool)
    requires 2 <= base <= 16
    ensures AllDigits(Digits(n, base, capital), base) && Denotes(Digits(n, base, capital), base) == n
    decreases n
  {
    hide DigitChar, DigitValue, Digits, Denotes, AllDigits;
    UnfoldDigits(n, base, capital);
    if n < base {
      OneDigit(n, base, capital);
    } else {
      var q, k := n / base, n % base;
      DivideAndMultiply(n, base);
      DigitsDenote(q, base, capital);
      DigitCharValue(k, capital);
      DenotesMore(Digits(q, base, capital), DigitChar(k, capital), base);
    }
  }

  lemma {:induction false} UnfoldDigits(n: nat, base: nat, capital: bool)
    requires 2 <= base <= 16
    ensures n < base ==> Digits(n, base, capital) == [DigitChar(n, capital)]
    ensures n >= base ==> Digits(n, base, capital) == Digits(n / base, base, capital) + [DigitChar(n % base, capital)]
  {
    hide DigitChar;
  }

  lemma {:induction false} OneDigit(n: nat, base: nat, capital: bool)
    requires n < base <= 16
    ensures AllDigits([DigitChar(n, capital)], base) && Denotes([DigitChar(n, capital)], base) == n
  {
    DigitCharValue(n, capital);
    DenotesMore("", DigitChar(n, capital), base);
    assert "" + [DigitChar(n, capital)] == [DigitChar(n, capital)];
  }

  lemma {:induction false} DenotesMore(s: string, c: char, base: nat)
    requires AllDigits(s, base) && 0 <= DigitValue(c) < base
    ensures AllDigits(s + [c], base) && Denotes(s + [c], base) == Denotes(s, base) * base + DigitValue(c)
  {
    assert (s + [c])[..|s|] == s;
  }

  lemma DivideAndMultiply(n: nat, base: nat)
    requires base > 0
    ensures n / base * base + n % base == n && n % base < base
  {
  }

  /** Zeros in front do not matter. */
  lemma {:induction false} ZerosDenote(z: string, s: string, base: nat)
    requires base > 0 && forall i :: 0 <= i < |z| ==> z[i] == '0'
    ensures Denotes(z + s, base) == Denotes(s, base)
    decreases |z| + |s|
  {
    var t := z + s;
    if s != "" {
      assert t[..|t| - 1] == z + s[..|s| - 1];
      ZerosDenote(z, s[..|s| - 1], base);
    } else if z != "" {
      assert t == z && t[..|t| - 1] == z[..|z| - 1] + "";
      ZerosDenote(z[..|z| - 1], "", base);
    } else {
      assert t == "";
    }
  }

  /** The loop of toLong computes what the rest of the string denotes. */
  lemma {:induction false} AccumulateDenotes(s: string, i0: nat, i: nat, base: nat)
    requires i0 <= i <= |s| && AllDigits(s[i0..], base)
    ensures Accumulate(s, i, base, Denotes(s[i0..i], base)) == Denotes(s[i0..], base)
    decreases |s| - i
  {
    if i < |s| {
      assert s[i] == s[i0..][i - i0];
      assert s[i0..i + 1][..i - i0] == s[i0..i];
      AccumulateDenotes(s, i0, i + 1, base);
    } else {
      assert s[i0..i] == s[i0..];
    }
  }

  /** A string of white space, perhaps a sign, and digits in one of the bases reads as its number. */
  lemma {:induction false} ParsedDigits(s: string, i: nat, j: nat, base: nat)
    requires i <= j < |s| && base in {8, 10, 16} && AllDigits(s[j..], base)
    requires forall k :: 0 <= k < i ==> IsWhiteSpace(s[k])
    requires j == i || (j == i + 1 && s[i] == '-')
    ensures Parsed(s, base) == ToInt32(if j == i then Denotes(s[j..], base) else -Denotes(s[j..], base))
  {
    assert forall k :: j <= k < |s| ==> s[k] == s[j..][k - j] && 0 <= DigitValue(s[k]) < base;
    SkipTo(s, 0, i);
    AccumulateDenotes(s, j, j, base);
    assert s[j..j] == "";
    assert !HasHexPrefix(s, j, base);
    hide Denotes, Accumulate, ToInt32;
  }

  lemma {:induction false} SkipTo(s: string, k: nat, i: nat)
    requires k <= i < |s| && !IsWhiteSpace(s[i]) && forall j :: k <= j < i ==> IsWhiteSpace(s[j])
    ensures SkipSpace(s, k) == i
    decreases i - k
  {
    if k < i {
      SkipTo(s, k + 1, i);
    }
  }

  /** A field as white space and digits: pad with spaces or with zeros. */
  lemma RenderedParts(n: nat, base: nat, width: int, pad: char, capital: bool) returns (i: nat)
    requires base in {8, 10, 16} && (pad == ' ' || pad == '0')
    ensures var s := Rendered(n, base, width, pad, capital);
            && i < |s| && (forall k :: 0 <= k < i ==> s[k] == ' ')
              && (i > 0 <==> pad == ' ' && width > |Digits(n, base, capital)|)
            && AllDigits(s[i..], base) && Denotes(s[i..], base) == n
  {
    var d, z := Digits(n, base, capital), Padding(width - |Digits(n, base, capital)|, pad);
    var s := Rendered(n, base, width, pad, capital);
    DigitsDenote(n, base, capital);
    hide Digits, Denotes;
    if pad == ' ' {
      i := |z|;
      assert s[i..] == d;
    } else {
      i := 0;
      assert s[i..] == z + d;
      ZerosDenote(z, d, base);
    }
  }

  /** Printing and reading in the same base gives the number back exactly when it fits in 31 bits. */
  lemma PrintThenParse(n: nat, base: nat, width: int, pad: char, capital: bool)
    requires base in {8, 10, 16} && (pad == ' ' || pad == '0') && n < 0x1_0000_0000
    ensures Parsed(Rendered(n, base, width, pad, capital), base) == ToInt32(n)
    ensures Parsed(Rendered(n, base, width, pad, capital), base) == n <==> n < 0x8000_0000
  {
    hide Rendered, Denotes, Parsed, AllDigits, IsWhiteSpace, Digits, ToInt32;
    SpaceIsWhite();
    Int32OfWord(n);
    var i := RenderedParts(n, base, width, pad, capital);
    ParsedDigits(Rendered(n, base, width, pad, capital), i, i, base);
  }

  /** A %d of any 32-bit int reads back as itself, unless a negative number is padded with spaces:
      the spaces then stand between the sign and the digits, and it reads as zero. */
  lemma {:induction false} PrintIntThenParse(n: int, width: int, pad: char)
    requires -0x8000_0000 <= n < 0x8000_0000 && (pad == ' ' || pad == '0')
    ensures Parsed(Printed(n, width, pad), 10) == n <==> !(n < 0 && pad == ' ' && width > |Digits(-n, 10, false)|)
  {
    hide Rendered, Denotes, Parsed, Digits, AllDigits, ToInt32, DigitValue, IsWhiteSpace;
    if n >= 0 {
      PrintThenParse(n, 10, width, pad, false);
    } else {
      var r := Rendered(-n, 10, width, pad, false);
      var i := RenderedParts(-n, 10, width, pad, false);
      NegativeParses(n, r, i);
    }
  }

  lemma NegativeParses(n: int, r: string, i: nat)
    requires -0x8000_0000 <= n < 0 && i < |r| && (forall k :: 0 <= k < i ==> r[k] == ' ') && AllDigits(r[i..], 10)
        && Denotes(r[i..], 10) == -n
    ensures Parsed("-" + r, 10) == n <==> i == 0
  {
    hide Denotes, Parsed, AllDigits, ToInt32, DigitValue, IsWhiteSpace;
    var s := "-" + r;
    if i == 0 {
      assert s[1..] == r == r[0..];
      ParsedDigits(s, 0, 1, 10);
      Int32Fits(n);
    } else {
      assert s[1] == r[0] == ' ';
      ParsedBlank(s);
    }
  }

  lemma SpaceIsWhite()
    ensures IsWhiteSpace(' ')
  {
  }

  lemma Int32OfWord(n: nat)
    requires n < 0x1_0000_0000
    ensures ToInt32(n) == n <==> n < 0x8000_0000
  {
  }

  lemma Int32Fits(n: int)
    requires -0x8000_0000 <= n < 0x8000_0000
    ensures ToInt32(n) == n
  {
  }

  lemma ParsedBlank(s: string)
    requires |s| > 1 && s[0] == '-' && s[1] == ' '
    ensures Parsed(s, 10) == 0
  {
    SkipTo(s, 0, 0);
  }

  // The cases of the digits, and the choice of a base

  /** A digit below ten, or a letter up to F, capital or not. */
  predicate HexDigit(c: char, capital: bool) {
    '0' <= c <= '9' || (if capital then 'A' <= c <= 'F' else 'a' <= c <= 'f')
  }

  /** Digits from ten on are letters, capital if asked for. */
  lemma {:induction false} DigitsCase(n: nat, base: nat, capital: bool)
    requires 2 <= base <= 16
    ensures forall c :: c in Digits(n, base, capital) ==> HexDigit(c, capital)
    decreases n
  {
    hide Digits, DigitChar, HexDigit;
    UnfoldDigits(n, base, capital);
    if n < base {
      LetterCase(n, capital);
    } else {
      QuotientPositive(n, base);
      DivideAndMultiply(n, base);
      LetterCase(n % base, capital);
      DigitsCase(n / base, base, capital);
    }
  }

  lemma LetterCase(k: nat, capital: bool)
    requires k < 16
    ensures HexDigit(DigitChar(k, capital), capital)
  {
  }

  /** After blanks and a sign, a string says itself in which base it is read, if the caller gives base 0. */
  lemma ParsedFrom(s: string, i: nat, base: nat)
    requires i < |s| && (forall k :: 0 <= k < i ==> IsWhiteSpace(s[k])) && !IsWhiteSpace(s[i])
    ensures var j := if s[i] == '-' || s[i] == '+' then i + 1 else i;
            Parsed(s, base) ==
              var n :=
                if base == 0 && At(s, j) == '0' && At(s, j + 1) != 'x'
                  && At(s, j + 1) != 'X' then Accumulate(s, j, 8, 0)
                else if base == 0 && At(s, j) != '0' then Accumulate(s, j, 10, 0)
                else if (base == 0 || base == 16) && At(s, j) == '0' && (At(s, j + 1) == 'x' || At(s, j + 1) == 'X')
                then Accumulate(s, j + 2, 16, 0)
                else Accumulate(s, j, base, 0);
              ToInt32(if s[i] == '-' then -n else n)
  {
    SkipTo(s, 0, i);
    hide Accumulate;
  }

  /** What precedes the digits of a number so that base 0 reads it in the given base. */
  function Prefix(base: nat): string
    requires base in {8, 10, 16}
  {
    if base == 16 then "0x" else if base == 8 then "0" else ""
  }

  /** With base 0, as the monitor calls it, a number is read in the base that its prefix announces, behind a plus
      sign as well; the digits of every number below 2^31 read back. */
  lemma PrefixThenParse(n: nat, base: nat, capital: bool, plus: bool)
    requires base in {8, 10, 16} && n < 0x8000_0000
    ensures Parsed((if plus then "+" else "") + Prefix(base) + Digits(n, base, capital), 0) == n
  {
    hide Digits, Denotes, Accumulate, Parsed, DigitValue, IsWhiteSpace, AllDigits, ToInt32;
    var sign, d := if plus then "+" else "", Digits(n, base, capital);
    var s, j := sign + Prefix(base) + d, |sign|;
    var m := j + |Prefix(base)|;
    DigitsDenote(n, base, capital);
    FirstDigit(n, base, capital);
    DigitOf(d, base);
    assert s[m..] == d && s[m] == d[0] && s[m..m] == "";
    NotBlank();
    ParsedFrom(s, 0, 0);
    AccumulateDenotes(s, m, m, base);
    Int32OfWord(n);
    assert Denotes("", base) == 0 by {
      DenotesNothing(base);
    }
    ZeroFirst(s, j, n == 0 && base == 10);
  }

  lemma DigitOf(d: string, base: nat)
    requires AllDigits(d, base) && base <= 16 && d != ""
    ensures d[0] !in {'x', 'X', '-', '+', '\0'} && !IsWhiteSpace(d[0])
  {
    assert 0 <= DigitValue(d[0]) < base;
  }

  lemma NotBlank()
    ensures !IsWhiteSpace('+') && !IsWhiteSpace('0')
  {
  }

  lemma DenotesNothing(base: nat)
    ensures Denotes("", base) == 0
  {
  }

  /** A zero in front adds nothing. */
  lemma ZeroFirst(s: string, j: nat, last: bool)
    requires j < |s| && (last ==> j + 1 == |s|)
    ensures s[j] == '0' ==> Accumulate(s, j, 8, 0) == Accumulate(s, j + 1, 8, 0)
    ensures s[j] == '0' && last ==> Accumulate(s, j, 8, 0) == 0
  {
  }

  /** A number has no digit zero in front. */
  lemma {:induction false} FirstDigit(n: nat, base: nat, capital: bool)
    requires 2 <= base <= 16
    ensures Digits(n, base, capital)[0] == '0' <==> n == 0
    ensures n == 0 ==> Digits(n, base, capital) == "0"
    decreases n
  {
    hide Digits, DigitChar;
    UnfoldDigits(n, base, capital);
    ZeroDigit(n % base, capital);
    if n >= base {
      QuotientPositive(n, base);
      FirstDigit(n / base, base, capital);
    } else {
      SmallRest(n, base);
    }
  }

  lemma ZeroDigit(k: nat, capital: bool)
    requires k < 16
    ensures DigitChar(k, capital) == '0' <==> k == 0
  {
  }

  lemma QuotientPositive(n: nat, base: nat)
    requires 2 <= base <= n
    ensures 0 < n / base < n
  {
  }

  lemma SmallRest(n: nat, base: nat)
    requires n < base
    ensures n % base == n
  {
  }

  // What counts as a blank and as a digit

  /** Blanks in front do not matter: the space, and the characters from the tab to the carriage return. */
  lemma BlanksAreSkipped(w: string, s: string, base: nat)
    requires forall k :: 0 <= k < |w| ==> w[k] == ' ' || 9 <= w[k] as int <= 13
    ensures Parsed(w + s, base) == Parsed(s, base)
  {
    hide Accumulate, SkipSpace, IsWhiteSpace, ToInt32;
    var i := SkipSpace(s, 0);
    var j := if At(s, i) == '-' || At(s, i) == '+' then i + 1 else i;
    SkipBehind(w, s, 0);
    assert forall k: nat :: At(w + s, |w| + k) == At(s, k);
    assert At(w + s, |w| + j + 1) == At(s, j + 1) by {
      assert At(w + s, |w| + (j + 1)) == At(s, j + 1);
    }
    ShiftedDigits(w, s, j, if base == 0 then if At(s, j) == '0' then 8 else 10 else base, 0);
    ShiftedDigits(w, s, j + 2, 16, 0);
  }

  lemma {:induction false} SkipBehind(w: string, s: string, k: nat)
    requires k <= |w| && forall l :: 0 <= l < |w| ==> w[l] == ' ' || 9 <= w[l] as int <= 13
    ensures SkipSpace(w + s, k) == |w| + SkipSpace(s, 0)
    decreases |w| - k
  {
    if k < |w| {
      assert IsWhiteSpace(At(w + s, k));
      SkipBehind(w, s, k + 1);
    } else {
      ShiftedSpace(w, s, 0);
    }
  }

  lemma {:induction false} ShiftedSpace(w: string, s: string, k: nat)
    ensures SkipSpace(w + s, |w| + k) == |w| + SkipSpace(s, k)
    decreases |s| - k
  {
    assert !IsWhiteSpace('\0');
    hide IsWhiteSpace;
    assert At(w + s, |w| + k) == At(s, k);
    if IsWhiteSpace(At(s, k)) {
      ShiftedSpace(w, s, k + 1);
    }
  }

  lemma {:induction false} ShiftedDigits(w: string, s: string, i: nat, base: nat, acc: int)
    ensures Accumulate(w + s, |w| + i, base, acc) == Accumulate(s, i, base, acc)
    decreases |s| - i
  {
    assert DigitValue('\0') == -1;
    hide DigitValue;
    var d := DigitValue(At(s, i));
    assert At(w + s, |w| + i) == At(s, i);
    if 0 <= d < base {
      ShiftedDigits(w, s, i + 1, base, acc * base + d);
    }
  }

  /** The value of one character, in bases above it. */
  function ValueOf(c: char): int {
    var k := c as int;
    if 48 <= k < 58 then k - 48 else if 65 <= k < 91 then k - 55 else if 97 <= k < 123 then k - 87 else -1
  }

  /** A character that is neither a blank nor a sign is read as a digit if it is one, and otherwise ends the number,
      which then is zero. */
  lemma FirstCharacter(c: char, s: string, base: nat)
    requires base > 0 && c !in {' ', '-', '+'} && !(9 <= c as int <= 13)
    ensures !(0 <= ValueOf(c) < base) ==> Parsed([c] + s, base) == 0
    ensures 0 <= ValueOf(c) < base && s == "" ==> Parsed([c] + s, base) == ToInt32(ValueOf(c))
  {
    SkipTo([c] + s, 0, 0);
    assert s == "" ==> Accumulate([c] + s, 1, base, ValueOf(c)) == ValueOf(c);
  }
}
