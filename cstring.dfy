/**
 * The string and memory functions of ulib/string.c, measured against
 * section 7.24 of ISO/IEC 9899:2011. Memory is an array of bytes; a
 * source string is a sequence read through CText.At, so that the
 * characters past its end read as the terminator; a destination is an
 * array of characters. Memory is bytes; a character stands for a C
 * char, which has 8 bits, but nothing bounds it below 256: on characters
 * up to 255 the (uchar) casts of strncmp change nothing, and on larger
 * ones, which no C string holds, Strncmp's difference is of code points
 * where the casts would first reduce both. Pointer aliasing between a
 * destination and a source string is not modelled (memmove's overlap is:
 * its two ranges are offsets into one array).
 */
module CString {
  import opened Common
  import opened Numerals
  import opened CText

  /** memcmp: 0 exactly when the first n bytes agree, else the difference at the first that differs. */
  method Memcmp(s1: seq<byte>, s2: seq<byte>, n: nat) returns (r: int)
    requires n <= |s1| && n <= |s2|
    ensures r == 0 <==> s1[..n] == s2[..n]
    ensures r != 0 ==> exists k :: 0 <= k < n && s1[..k] == s2[..k] && r == s1[k] as int - s2[k] as int
  {
    var i := 0;
    while i < n
      invariant 0 <= i <= n && s1[..i] == s2[..i]
    {
      if s1[i] != s2[i] {
        assert s1[..n][i] != s2[..n][i];
        return s1[i] as int - s2[i] as int;
      }
      assert s1[..i + 1] == s1[..i] + [s1[i]] && s2[..i + 1] == s2[..i] + [s2[i]];
      i := i + 1;
    }
    r := 0;
  }

  /**
   * The 32-bit word stosl stores for the low byte b:
   * (b << 24) | (b << 16) | (b << 8) | b, which is a sum since the four
   * lanes do not overlap.
   */
  function Replicated(b: byte): (w: uint32)
    ensures Lane(w, 0) == b && Lane(w, 1) == b && Lane(w, 2) == b && Lane(w, 3) == b
  {
    var w := b + 256 * (b + 256 * (b + 256 * b));
    LowByte(b, b + 256 * (b + 256 * b));
    LowByte(b, b + 256 * b);
    LowByte(b, b);
    w
  }

  lemma LowByte(lo: int, hi: int)
    requires 0 <= lo < 256 && 0 <= hi
    ensures (lo + 256 * hi) % 256 == lo && (lo + 256 * hi) / 256 == hi
  {
  }

  /** Byte lane of a 32-bit word, in the order a little-endian store lays the bytes out. */
  function Lane(w: uint32, lane: nat): (v: byte)
    requires lane < 4
  {
    if lane == 0 then w % 256
    else if lane == 1 then (w / 256) % 256
    else if lane == 2 then (w / 0x1_0000) % 256
    else w / 0x100_0000
  }

  /**
   * memset: with a word-aligned destination and n a multiple of 4 it
   * stores n / 4 copies of the replicated word, little-endian, else n
   * copies of the low byte; either way every byte becomes c mod 256. The
   * alignment of the address is the parameter dstAligned.
   */
  method Memset(dst: array<byte>, c: int, n: nat, dstAligned: bool)
    requires n <= dst.Length
    modifies dst
    ensures forall k :: 0 <= k < n ==> dst[k] == c % 256
    ensures dst[n..] == old(dst[n..])
  {
    var b: byte := c % 256;
    if dstAligned && n % 4 == 0 {
      var word := Replicated(b);
      var i := 0;
      while i < n / 4
        invariant 0 <= i <= n / 4
        invariant forall k :: 0 <= k < 4 * i ==> dst[k] == b
        invariant dst[n..] == old(dst[n..])
      {
        dst[4 * i] := Lane(word, 0);
        dst[4 * i + 1] := Lane(word, 1);
        dst[4 * i + 2] := Lane(word, 2);
        dst[4 * i + 3] := Lane(word, 3);
        i := i + 1;
      }
    } else {
      var i := 0;
      while i < n
        invariant 0 <= i <= n
        invariant forall k :: 0 <= k < i ==> dst[k] == b
        invariant dst[n..] == old(dst[n..])
      {
        dst[i] := b;
        i := i + 1;
      }
    }
  }

  /**
   * memmove within one memory: copies backwards when src < dst < src + n,
   * forwards otherwise, so dst receives the original source bytes even
   * when the ranges overlap, and nothing outside dst changes.
   */
  method Memmove(mem: array<byte>, dst: nat, src: nat, n: nat)
    requires src + n <= mem.Length && dst + n <= mem.Length
    modifies mem
    ensures mem[dst..dst + n] == old(mem[src..src + n])
    ensures forall k :: 0 <= k < mem.Length && !(dst <= k < dst + n) ==> mem[k] == old(mem[k])
  {
    if src < dst && src + n > dst {
      var i := n;
      while i > 0
        invariant 0 <= i <= n
        invariant forall j :: dst + i <= j < dst + n ==> mem[j] == old(mem[j - dst + src])
        invariant forall j :: 0 <= j < mem.Length && !(dst + i <= j < dst + n) ==> mem[j] == old(mem[j])
      {
        i := i - 1;
        mem[dst + i] := mem[src + i];
      }
    } else {
      var i := 0;
      while i < n
        invariant 0 <= i <= n
        invariant forall j :: dst <= j < dst + i ==> mem[j] == old(mem[j - dst + src])
        invariant forall j :: 0 <= j < mem.Length && !(dst <= j < dst + i) ==> mem[j] == old(mem[j])
      {
        mem[dst + i] := mem[src + i];
        i := i + 1;
      }
    }
    ghost var moved, original := mem[dst..dst + n], old(mem[src..src + n]);
    assert forall k :: 0 <= k < n ==> moved[k] == original[k];
  }

  /** strlen: the index of the first NUL. */
  method Strlen(s: seq<char>) returns (n: nat)
    ensures At(s, n) == '\0' && forall k :: 0 <= k < n ==> At(s, k) != '\0'
    ensures n == |UpToNul(s)|
  {
    n := 0;
    while At(s, n) != '\0'
      invariant n <= |UpToNul(s)|
      decreases |s| - n
    {
      n := n + 1;
    }
  }

  /** strcpy: the characters of t and its terminator, from s[0]; s holds enough room. */
  method Strcpy(s: array<char>, t: seq<char>)
    requires |UpToNul(t)| < s.Length
    modifies s
    ensures s[..|UpToNul(t)| + 1] == UpToNul(t) + ['\0']
    ensures s[|UpToNul(t)| + 1..] == old(s[|UpToNul(t)| + 1..])
  {
    var i := 0;
    while true
      invariant i <= |UpToNul(t)|
      invariant s[..i] == UpToNul(t)[..i]
      invariant s[|UpToNul(t)| + 1..] == old(s[|UpToNul(t)| + 1..])
      decreases |UpToNul(t)| - i
    {
      s[i] := At(t, i);
      if s[i] == '\0' {
        assert s[..i + 1] == UpToNul(t) + ['\0'];
        return;
      }
      i := i + 1;
    }
  }

  /** The index of the first NUL among s[0..limit), or limit when there is none. */
  function FirstNul(s: seq<char>, limit: nat): (w: nat)
    requires limit <= |s|
    ensures w <= limit && (w < limit ==> s[w] == '\0')
    ensures forall k :: 0 <= k < w ==> s[k] != '\0'
    decreases limit
  {
    if limit == 0 then 0
    else if FirstNul(s, limit - 1) < limit - 1 then FirstNul(s, limit - 1)
    else if s[limit - 1] == '\0' then limit - 1
    else limit
  }

  /**
   * The buffer strcat_s leaves: right, through its terminator, from the
   * first NUL of dest within max_len, cut at max_len.
   */
  function Strcat(dest: seq<char>, right: seq<char>, maxLen: nat): (r: seq<char>)
    requires maxLen <= |dest|
    ensures |r| == |dest|
    ensures forall k :: maxLen <= k < |dest| ==> r[k] == dest[k]
    ensures (forall k :: 0 <= k < maxLen ==> dest[k] != '\0') ==> r == dest
  {
    var w := FirstNul(dest, maxLen);
    var e := Min(maxLen, w + |UpToNul(right)| + 1);
    seq(|dest|, k requires 0 <= k < |dest| => if w <= k < e then At(right, k - w) else dest[k])
  }

  /** strcat_s: one pass over dest[0..max_len), writing from its first NUL on until right's NUL is copied. */
  method StrcatS(dest: array<char>, right: seq<char>, maxLen: int)
    requires 0 <= maxLen <= dest.Length
    modifies dest
    ensures dest[..] == Strcat(old(dest[..]), right, maxLen)
  {
    ghost var d0 := dest[..];
    ghost var w := FirstNul(d0, maxLen);
    ghost var e := Min(maxLen, w + |UpToNul(right)| + 1);
    var writing := -1;
    var i := 0;
    while i != maxLen
      invariant 0 <= i <= maxLen
      invariant writing < 0 ==> i <= w && dest[..] == d0
      invariant writing >= 0 ==> writing == w && w < i <= e && i - w <= |UpToNul(right)|
      invariant writing >= 0 ==> forall k :: 0 <= k < dest.Length ==>
        dest[k] == if w <= k < i then At(right, k - w) else d0[k]
    {
      if writing < 0 && dest[i] == '\0' {
        writing := i;
      }
      if writing >= 0 {
        dest[i] := At(right, i - writing);
        if dest[i] == '\0' {
          assert i - w == |UpToNul(right)|;
          break;
        }
        assert i - w < |UpToNul(right)|;
      }
      i := i + 1;
    }
    assert writing < 0 ==> w == maxLen;
    assert dest[..] == Strcat(d0, right, maxLen);
  }

  /** When the joined string fits before max_len, the result holds dest's string followed by right's. */
  lemma {:induction false} StrcatJoins(dest: seq<char>, right: seq<char>, maxLen: nat)
    requires maxLen <= |dest|
    requires FirstNul(dest, maxLen) + |UpToNul(right)| < maxLen
    ensures UpToNul(Strcat(dest, right, maxLen)) == UpToNul(dest) + UpToNul(right)
  {
    var w := FirstNul(dest, maxLen);
    var rs := UpToNul(right);
    var r := Strcat(dest, right, maxLen);
    assert UpToNul(dest) == dest[..w] by {
      UpToNulAt(dest, w);
    }
    assert forall k :: 0 <= k < w + |rs| ==> r[k] == (dest[..w] + rs)[k] && r[k] != '\0';
    assert r[w + |rs|] == '\0';
    UpToNulAt(r, w + |rs|);
    assert r[..w + |rs|] == dest[..w] + rs;
  }

  /** The string held in s ends at the first NUL. */
  lemma {:induction false} UpToNulAt(s: seq<char>, m: nat)
    requires m < |s| && s[m] == '\0' && forall k :: 0 <= k < m ==> s[k] != '\0'
    ensures UpToNul(s) == s[..m]
  {
    if m > 0 {
      UpToNulAt(s[1..], m - 1);
      assert s[..m] == [s[0]] + s[1..][..m - 1];
    }
  }

  /** strncpy: t up to its terminator within n characters, then NUL up to n. */
  method Strncpy(s: array<char>, t: seq<char>, n: int)
    requires n <= s.Length
    modifies s
    ensures forall k :: 0 <= k < n ==> s[k] == if k < |UpToNul(t)| then t[k] else '\0'
    ensures forall k :: Max(n, 0) <= k < s.Length ==> s[k] == old(s[k])
  {
    ghost var L := |UpToNul(t)|;
    var m := n;
    var i := 0;
    var copying := true;
    while copying
      invariant 0 <= i <= Max(n, 0) && i <= L + 1
      invariant copying ==> m == n - i && i <= L
      invariant !copying ==> (m == n - i - 1 && n <= i) || (m == n - i && i == L + 1)
      invariant forall k :: 0 <= k < i ==> s[k] == if k < L then t[k] else '\0'
      invariant forall k :: i <= k < s.Length ==> s[k] == old(s[k])
      decreases Max(n, 0) - i + (if copying then 1 else 0)
    {
      var go := m > 0;
      m := m - 1;
      if go {
        s[i] := At(t, i);
        copying := s[i] != '\0';
        i := i + 1;
      } else {
        copying := false;
      }
    }
    while m > 0
      invariant 0 <= i <= Max(n, 0)
      invariant m > 0 ==> m == n - i && i >= L
      invariant m <= 0 ==> i >= n
      invariant forall k :: 0 <= k < i ==> s[k] == if k < L then t[k] else '\0'
      invariant forall k :: i <= k < s.Length ==> s[k] == old(s[k])
    {
      m := m - 1;
      s[i] := '\0';
      i := i + 1;
    }
  }

  /** The string s as strncmp sees it within n characters: up to its terminator or to n characters. */
  function Within(s: seq<char>, n: nat): seq<char>
  {
    UpToNul(s)[..Min(n, |UpToNul(s)|)]
  }

  /** strncmp: 0 exactly when p and q agree within n characters, else the difference where they first part. */
  method Strncmp(p: seq<char>, q: seq<char>, n: nat) returns (r: int)
    ensures r == 0 <==> Within(p, n) == Within(q, n)
    ensures r != 0 ==> exists k :: 0 <= k < n && Within(p, k) == Within(q, k) && r == At(p, k) as int - At(q, k) as int
  {
    var m := n;
    var i := 0;
    while m > 0 && At(p, i) != '\0' && At(p, i) == At(q, i)
      invariant 0 <= i && 0 <= m && i + m == n && i <= |UpToNul(p)|
      invariant forall k :: 0 <= k < i ==> At(p, k) != '\0' && At(p, k) == At(q, k)
      decreases m
    {
      m := m - 1;
      i := i + 1;
    }
    if m == 0 {
      SameWithin(p, q, i);
      return 0;
    }
    r := At(p, i) as int - At(q, i) as int;
    assert At(p, i) == '\0' || At(p, i) != At(q, i);
    if r == 0 {
      assert At(p, i) == At(q, i);
      assert At(p, i) == '\0' && At(q, i) == '\0';
      NulWithin(p, i, n);
      NulWithin(q, i, n);
      SameWithin(p, q, i);
    } else {
      assert Within(p, i + 1) != Within(q, i + 1) by {
        if At(p, i) == '\0' {
          assert |Within(p, i + 1)| == i;
        } else {
          assert |Within(p, i + 1)| == i + 1 && Within(p, i + 1)[i] == At(p, i);
        }
      }
      Diverge(p, q, i + 1, n);
      SameWithin(p, q, i);
    }
  }

  lemma NulFree(s: seq<char>, k: nat)
    requires forall j :: 0 <= j < k ==> At(s, j) != '\0'
    ensures k <= |UpToNul(s)|
  {
    assert At(s, |UpToNul(s)|) == '\0';
  }

  lemma SameWithin(p: seq<char>, q: seq<char>, i: nat)
    requires forall k :: 0 <= k < i ==> At(p, k) != '\0' && At(p, k) == At(q, k)
    ensures Within(p, i) == Within(q, i)
  {
    NulFree(p, i);
    assert forall k :: 0 <= k < i ==> At(q, k) != '\0';
    NulFree(q, i);
    assert forall k :: 0 <= k < i ==> UpToNul(p)[k] == At(p, k) && UpToNul(q)[k] == At(q, k);
  }

  lemma NulWithin(s: seq<char>, i: nat, n: nat)
    requires i < n && At(s, i) == '\0' && forall k :: 0 <= k < i ==> At(s, k) != '\0'
    ensures Within(s, n) == Within(s, i)
  {
    NulFree(s, i);
  }

  lemma Diverge(p: seq<char>, q: seq<char>, k: nat, n: nat)
    requires k <= n && Within(p, k) != Within(q, k)
    ensures Within(p, n) != Within(q, n)
  {
    assert Within(p, k) == Within(p, n)[..Min(k, |Within(p, n)|)];
    assert Within(q, k) == Within(q, n)[..Min(k, |Within(q, n)|)];
  }

  /** atoi: the value of the leading run of decimal digits; no white space, no sign. Overflow is not modelled. */
  method Atoi(s: seq<char>) returns (n: nat)
    ensures var e := DigitEnd(s, 0, 10);
      e <= |s| && AllDigits(s[..e], 10) && n == ValueOf(s[..e], 10)
  {
    n := 0;
    var i := 0;
    while '0' <= At(s, i) <= '9'
      invariant i <= |s| && DigitEnd(s, i, 10) == DigitEnd(s, 0, 10)
      invariant AllDigits(s[..i], 10) && n == ValueOf(s[..i], 10)
      decreases |s| - i
    {
      assert s[..i + 1] == s[..i] + [s[i]];
      assert AllDigits(s[..i + 1], 10);
      ValueOfSnoc(s[..i], s[i], 10);
      n := n * 10 + (At(s, i) as int - '0' as int);
      i := i + 1;
    }
  }

  /** atoi reads back the decimal digits of any number followed by a non-digit. */
  lemma AtoiReadsDigits(x: nat, rest: seq<char>)
    requires !IsDigitIn(At(rest, 0), 10)
    ensures var s := Digits(x, 10, true) + rest;
      var e := DigitEnd(s, 0, 10);
      e == |Digits(x, 10, true)| && ValueOf(s[..e], 10) == x
  {
    var d := Digits(x, 10, true);
    var s := d + rest;
    assert At(s, |d|) == At(rest, 0);
    DigitEndOver(s, 0, |d|, 10);
    assert s[..|d|] == d;
    ValueOfDigits(x, 10, true);
  }

  /** strchr: the first c before the terminator; the terminator itself is never found. */
  method Strchr(s: seq<char>, c: char) returns (r: Option<nat>)
    ensures r.Some? ==> r.value < |UpToNul(s)| && s[r.value] == c && c !in s[..r.value]
    ensures r.None? ==> c !in UpToNul(s)
  {
    var i := 0;
    while At(s, i) != '\0'
      invariant i <= |UpToNul(s)| && c !in s[..i]
      decreases |s| - i
    {
      if At(s, i) == c {
        return Some(i);
      }
      assert s[..i + 1] == s[..i] + [s[i]];
      i := i + 1;
    }
    r := None;
  }

  /** str2's string occurs in s at position i. */
  predicate Occurs(s: seq<char>, i: nat, str2: seq<char>)
  {
    i + |UpToNul(str2)| <= |s| && s[i..i + |UpToNul(str2)|] == UpToNul(str2)
  }

  /**
   * strstr: the first position of str1 at which str2 occurs, scanning
   * only positions before str1's terminator; so an empty str1 gives no
   * position even for an empty str2, where ISO C gives str1.
   */
  method Strstr(str1: seq<char>, str2: seq<char>) returns (r: Option<nat>)
    ensures r.Some? ==> r.value < |UpToNul(str1)| && Occurs(str1, r.value, str2)
    ensures r.Some? ==> forall j :: 0 <= j < r.value ==> !Occurs(str1, j, str2)
    ensures r.None? ==> forall j :: 0 <= j < |UpToNul(str1)| ==> !Occurs(str1, j, str2)
  {
    var len := Strlen(str2);
    var i := 0;
    while At(str1, i) != '\0'
      invariant i <= |UpToNul(str1)|
      invariant forall j :: 0 <= j < i ==> !Occurs(str1, j, str2)
      decreases |str1| - i
    {
      var d := Strncmp(str1[i..], str2, len);
      OccursIffWithin(str1, i, str2);
      if d == 0 {
        return Some(i);
      }
      i := i + 1;
    }
    r := None;
  }

  lemma OccursIffWithin(s: seq<char>, i: nat, str2: seq<char>)
    requires i <= |s|
    ensures Occurs(s, i, str2) <==> Within(s[i..], |UpToNul(str2)|) == Within(str2, |UpToNul(str2)|)
  {
    var b := UpToNul(str2);
    var p := s[i..];
    assert Within(str2, |b|) == b;
    if Occurs(s, i, str2) {
      assert forall k :: 0 <= k < |b| ==> At(p, k) == b[k] && At(p, k) != '\0';
      NulFree(p, |b|);
      assert forall k :: 0 <= k < |b| ==> UpToNul(p)[k] == b[k];
    }
    if Within(p, |b|) == b {
      assert |UpToNul(p)| >= |b|;
      assert forall k :: 0 <= k < |b| ==> s[i + k] == UpToNul(p)[k];
      assert s[i..i + |b|] == b;
    }
  }
}
