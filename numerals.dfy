/**
 * Positional notation: the digit strings that the three printint routines
 * (kernel/klib.c, ulib/unix/stdio.c, kernel/console.c) produce, and the
 * value that strtol and atoi read back from a digit run.
 */
module Numerals {

  /** The character for digit d: "0123456789ABCDEF" or "0123456789abcdef". */
  function DigitChar(d: nat, upper: bool): (c: char)
    requires d < 16
    ensures DigitValue(c) == d
  {
    if d < 10 then (48 + d) as char
    else if upper then (55 + d) as char
    else (87 + d) as char
  }

  /** The value of a digit or letter in bases up to 36, or -1 for any other character. */
  function DigitValue(c: char): (v: int)
    ensures -1 <= v < 36
  {
    if '0' <= c <= '9' then c as int - 48
    else if 'A' <= c <= 'Z' then c as int - 55
    else if 'a' <= c <= 'z' then c as int - 87
    else -1
  }

  predicate IsDigitIn(c: char, base: nat)
  {
    0 <= DigitValue(c) < base
  }

  /** The two bases the source formats and parses in. */
  predicate Base(base: nat)
  {
    base == 10 || base == 16
  }

  predicate AllDigits(s: seq<char>, base: nat)
  {
    forall k :: 0 <= k < |s| ==> IsDigitIn(s[k], base)
  }

  /** Facts about Euclidean division by a base that the solver does not find by itself. */
  lemma DivMod(x: nat, base: nat)
    requires Base(base)
    ensures x == (x / base) * base + x % base
    ensures 0 <= x % base < base && 0 <= x / base
    ensures x >= base ==> 1 <= x / base < x
    ensures x < base ==> x / base == 0 && x % base == x
  {
    if base == 10 {
      assert x == (x / 10) * 10 + x % 10;
    } else {
      assert x == (x / 16) * 16 + x % 16;
    }
  }

  /** Most-significant digit first, no leading zeros, "0" for zero. */
  function Digits(x: nat, base: nat, upper: bool): (s: seq<char>)
    requires Base(base)
    ensures |s| >= 1 && AllDigits(s, base)
    decreases x
  {
    DivMod(x, base);
    (if x < base then [] else Digits(x / base, base, upper)) + [DigitChar(x % base, upper)]
  }

  /** The value of a digit run, read left to right as n := n * base + d. */
  function ValueOf(s: seq<char>, base: nat): (n: nat)
    requires AllDigits(s, base)
  {
    if s == [] then 0
    else ValueOf(s[..|s| - 1], base) * base + DigitValue(s[|s| - 1])
  }

  lemma ValueOfSnoc(s: seq<char>, c: char, base: nat)
    requires AllDigits(s + [c], base)
    ensures AllDigits(s, base)
    ensures ValueOf(s + [c], base) == ValueOf(s, base) * base + DigitValue(c)
  {
    assert (s + [c])[..|s|] == s;
    assert forall k :: 0 <= k < |s| ==> s[k] == (s + [c])[k];
  }

  function Reverse<T>(s: seq<T>): (r: seq<T>)
    ensures |r| == |s|
  {
    if s == [] then [] else [s[|s| - 1]] + Reverse(s[..|s| - 1])
  }

  lemma {:induction false} ReverseAt<T>(s: seq<T>, k: nat)
    requires k < |s|
    ensures Reverse(s)[k] == s[|s| - 1 - k]
  {
    if k > 0 {
      ReverseAt(s[..|s| - 1], k - 1);
    }
  }

  lemma ReverseSnoc<T>(s: seq<T>, a: T)
    ensures Reverse(s + [a]) == [a] + Reverse(s)
  {
    assert (s + [a])[..|s|] == s;
  }

  function Pow(b: nat, k: nat): (p: nat)
    ensures b >= 1 ==> p >= 1
  {
    if k == 0 then 1 else b * Pow(b, k - 1)
  }

  /** Reading back what Digits wrote gives the number. */
  lemma {:induction false} ValueOfDigits(x: nat, base: nat, upper: bool)
    requires Base(base)
    ensures ValueOf(Digits(x, base, upper), base) == x
    decreases x
  {
    DivMod(x, base);
    var last := DigitChar(x % base, upper);
    if x < base {
      assert Digits(x, base, upper) == [] + [last];
      ValueOfSnoc([], last, base);
    } else {
      var front := Digits(x / base, base, upper);
      assert Digits(x, base, upper) == front + [last];
      ValueOfDigits(x / base, base, upper);
      ValueOfSnoc(front, last, base);
    }
  }

  /** A value below base^k needs at most k digits. */
  lemma {:induction false} DigitsLength(x: nat, base: nat, upper: bool, k: nat)
    requires Base(base) && 1 <= k && x < Pow(base, k)
    ensures |Digits(x, base, upper)| <= k
    decreases x
  {
    DivMod(x, base);
    if x >= base {
      assert Pow(base, 1) == base;
      assert k >= 2;
      assert x / base < Pow(base, k - 1) by {
        assert x < base * Pow(base, k - 1);
        if base == 10 { assert x / 10 < Pow(10, k - 1); } else { assert x / 16 < Pow(16, k - 1); }
      }
      DigitsLength(x / base, base, upper, k - 1);
    }
  }

  /** Only zero is written with a leading '0'. */
  lemma {:induction false} NoLeadingZero(x: nat, base: nat, upper: bool)
    requires Base(base)
    ensures Digits(x, base, upper)[0] == '0' <==> x == 0
    decreases x
  {
    DivMod(x, base);
    if x >= base {
      NoLeadingZero(x / base, base, upper);
      assert x / base != 0;
    }
  }
}
