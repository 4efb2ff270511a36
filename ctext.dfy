/**
 * C strings as the model reads them, and the strtol contract of ISO C
 * (section 7.22.1.4 of ISO/IEC 9899:2011) that ip_addr_pton,
 * ethernet_addr_pton and ed's address parser are meant for (the
 * kernel's own strtol of kernel/klib.c, which the first two link, falls short of
 * it; Klib models that one as written):
 * optional white space, an optional sign, then the longest run of digits
 * of the base; the end position is reported and is the start position
 * when no digit was read. The hexadecimal "0x" prefix is not modelled,
 * and neither is the clamping of an out-of-range value to LONG_MIN or
 * LONG_MAX with errno set to ERANGE: Strtol's value is unbounded.
 */
module CText {
  import opened Ctype
  import opened Numerals

  /** Character i of the NUL-terminated string held in s: past the end it reads as NUL. */
  function At(s: seq<char>, i: nat): char
  {
    if i < |s| then s[i] else '\0'
  }

  /** The characters of a C string up to its first NUL. */
  function UpToNul(s: seq<char>): (r: seq<char>)
    ensures |r| <= |s| && r == s[..|r|] && '\0' !in r
    ensures |r| < |s| ==> s[|r|] == '\0'
    ensures At(s, |r|) == '\0' && forall k :: 0 <= k < |r| ==> At(s, k) != '\0'
  {
    if s == [] || s[0] == '\0' then [] else [s[0]] + UpToNul(s[1..])
  }

  /** The first position at or after i that is not white space. */
  function SkipSpace(s: seq<char>, i: nat): (j: nat)
    ensures i <= j && (j == i || j <= |s|)
    ensures forall k :: i <= k < j ==> IsSpace(At(s, k) as int) == 1
    ensures IsSpace(At(s, j) as int) == 0
    decreases |s| - i
  {
    if i < |s| && IsSpace(s[i] as int) == 1 then SkipSpace(s, i + 1) else i
  }

  /** The end of the longest run of base digits that starts at i. */
  function DigitEnd(s: seq<char>, i: nat, base: nat): (j: nat)
    ensures i <= j && (j == i || j <= |s|)
    ensures forall k :: i <= k < j ==> IsDigitIn(At(s, k), base)
    ensures !IsDigitIn(At(s, j), base)
    decreases |s| - i
  {
    if i < |s| && IsDigitIn(s[i], base) then DigitEnd(s, i + 1, base)
    else
      assert !IsDigitIn(At(s, i), base) by {
        if i >= |s| { assert DigitValue('\0') == -1; }
      }
      i
  }

  datatype Conversion = Conversion(value: int, end: nat)

  function Strtol(s: seq<char>, start: nat, base: nat): (r: Conversion)
    requires Base(base)
    ensures r.end == start ==> r.value == 0
    ensures r.end != start ==> start < r.end <= |s| && IsDigitIn(s[r.end - 1], base)
    ensures !IsDigitIn(At(s, r.end), base) || r.end == start
  {
    var p := SkipSpace(s, start);
    var sign := At(s, p) == '-' || At(s, p) == '+';
    var q := if sign then p + 1 else p;
    var e := DigitEnd(s, q, base);
    if e == q then Conversion(0, start)
    else
      DigitRun(s, q, base, e);
      var v: int := ValueOf(s[q..e], base);
      Conversion(if At(s, p) == '-' then -v else v, e)
  }

  /** The digits of x at position q, ending at e and followed by a non-digit, convert to x and end at e. */
  lemma {:induction false} DigitsReadAt(s: seq<char>, q: nat, x: nat, base: nat, e: nat)
    requires Base(base) && e == q + |Digits(x, base, true)|
    requires e <= |s| && s[q..e] == Digits(x, base, true) && !IsDigitIn(At(s, e), base)
    ensures DigitEnd(s, q, base) == e
    ensures ValueOf(s[q..e], base) == x
  {
    var d := Digits(x, base, true);
    assert forall k :: q <= k < e ==> s[k] == d[k - q];
    DigitEndOver(s, q, e, base);
    ValueOfDigits(x, base, true);
  }

  /** strtol at position i of the digits of x, ending at e and followed by a non-digit. */
  lemma StrtolReadsAt(s: seq<char>, i: nat, x: nat, base: nat, e: nat)
    requires Base(base) && e == i + |Digits(x, base, true)|
    requires e <= |s| && s[i..e] == Digits(x, base, true) && !IsDigitIn(At(s, e), base)
    ensures Strtol(s, i, base) == Conversion(x, e)
  {
    var d := Digits(x, base, true);
    assert At(s, i) == d[0];
    DigitsReadAt(s, i, x, base, e);
    StrtolUnsigned(s, i, base, e);
  }

  /** strtol at a digit: the value of the digit run and its end. */
  lemma StrtolUnsigned(s: seq<char>, i: nat, base: nat, e: nat)
    requires Base(base) && IsDigitIn(At(s, i), base) && DigitEnd(s, i, base) == e
    ensures e <= |s| && AllDigits(s[i..e], base)
    ensures Strtol(s, i, base) == Conversion(ValueOf(s[i..e], base), e)
  {
    NotSpaceOrSign(At(s, i), base);
    assert SkipSpace(s, i) == i;
    assert e != i;
    DigitRun(s, i, base, e);
    assert Strtol(s, i, base).end == e;
    assert Strtol(s, i, base).value == ValueOf(s[i..e], base);
  }

  /** A digit run [i, e) found by DigitEnd is all digits. */
  lemma DigitRun(s: seq<char>, i: nat, base: nat, e: nat)
    requires DigitEnd(s, i, base) == e && e != i
    ensures e <= |s| && AllDigits(s[i..e], base)
  {
    assert forall k :: 0 <= k < e - i ==> s[i..e][k] == At(s, i + k);
  }

  /** strtol at position i of '-' and the digits of x, ending at e and followed by a non-digit. */
  lemma StrtolReadsNegativeAt(s: seq<char>, i: nat, x: nat, base: nat, e: nat)
    requires Base(base) && e == i + 1 + |Digits(x, base, true)|
    requires e <= |s| && s[i] == '-' && s[i + 1..e] == Digits(x, base, true) && !IsDigitIn(At(s, e), base)
    ensures Strtol(s, i, base) == Conversion(-(x as int), e)
  {
    var q := i + 1;
    var d := Digits(x, base, true);
    assert At(s, q) == d[0];
    DigitsReadAt(s, q, x, base, e);
    StrtolNegative(s, i, base, q, e);
  }

  /** strtol at a '-' followed by a digit: the negated value of the digit run and its end. */
  lemma StrtolNegative(s: seq<char>, i: nat, base: nat, q: nat, e: nat)
    requires Base(base) && At(s, i) == '-' && q == i + 1 && IsDigitIn(At(s, q), base) && DigitEnd(s, q, base) == e
    ensures e <= |s| && AllDigits(s[q..e], base)
    ensures Strtol(s, i, base) == Conversion(-(ValueOf(s[q..e], base) as int), e)
  {
    assert IsSpace(At(s, i) as int) == 0;
    assert SkipSpace(s, i) == i;
    assert e != q;
    DigitRun(s, q, base, e);
    assert Strtol(s, i, base).end == e;
    assert Strtol(s, i, base).value == -(ValueOf(s[q..e], base) as int);
  }

  /** Digits written by Digits.Digits followed by a non-digit convert back to the number. */
  lemma StrtolOfDigits(x: nat, base: nat, rest: seq<char>)
    requires Base(base)
    requires !IsDigitIn(At(rest, 0), base)
    ensures Strtol(Digits(x, base, true) + rest, 0, base)
         == Conversion(x, |Digits(x, base, true)|)
  {
    var d := Digits(x, base, true);
    assert (d + rest)[0..|d|] == d;
    assert At(d + rest, |d|) == At(rest, 0);
    StrtolReadsAt(d + rest, 0, x, base, |d|);
  }

  lemma NotSpaceOrSign(c: char, base: nat)
    requires IsDigitIn(c, base)
    ensures IsSpace(c as int) == 0 && c != '-' && c != '+'
  {
  }

  /** A maximal digit run [i, j) ends exactly at j. */
  lemma {:induction false} DigitEndOver(s: seq<char>, i: nat, j: nat, base: nat)
    requires i <= j <= |s|
    requires forall k :: i <= k < j ==> IsDigitIn(s[k], base)
    requires !IsDigitIn(At(s, j), base)
    ensures DigitEnd(s, i, base) == j
    decreases j - i
  {
    if i < j {
      DigitEndOver(s, i + 1, j, base);
    }
  }
}
