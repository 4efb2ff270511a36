/**
 * The functions of ulib/unix/string.c that ulib/string.c does not have:
 * gets, safestrcpy and strcmp. The rest of that file repeats
 * ulib/string.c line for line and is module CString. Standard input is
 * the sequence of characters read(0, &c, 1) would deliver.
 */
module UnixString {
  import opened Common
  import opened CText
  import CString

  /** Where the line gets reads from position i stops: at limit, at the end of the input or after a newline or carriage return. */
  function LineEnd(input: seq<char>, i: nat, limit: nat): (e: nat)
    requires i <= limit && i <= |input|
    ensures i <= e <= limit && e <= |input|
    ensures forall k :: i <= k < e - 1 ==> input[k] != '\n' && input[k] != '\r'
    ensures e < limit && e < |input| ==> i < e && input[e - 1] in {'\n', '\r'}
    decreases limit - i
  {
    if i == limit || i == |input| then i
    else if input[i] == '\n' || input[i] == '\r' then i + 1
    else LineEnd(input, i + 1, limit)
  }

  /** The line gets reads: at most limit characters, up to and including the first newline or carriage return. */
  function GetsLine(input: seq<char>, limit: nat): (line: seq<char>)
    ensures |line| <= limit && |line| <= |input| && line == input[..|line|]
    ensures forall k :: 0 <= k < |line| - 1 ==> line[k] != '\n' && line[k] != '\r'
    ensures |line| < limit && |line| < |input| ==> line != [] && line[|line| - 1] in {'\n', '\r'}
  {
    input[..LineEnd(input, 0, Min(limit, |input|))]
  }

  /**
   * gets: reads one character at a time into buf until max - 1 are read,
   * a line ends or the input is exhausted, then terminates the string.
   * consumed is the number of input characters taken.
   */
  method Gets(buf: array<char>, max: int, input: seq<char>) returns (consumed: nat)
    requires Max(max, 1) <= buf.Length
    modifies buf
    ensures consumed < buf.Length && buf[..consumed] == GetsLine(input, Max(max - 1, 0)) && buf[consumed] == '\0'
    ensures forall k :: consumed < k < buf.Length ==> buf[k] == old(buf[k])
  {
    ghost var limit := Min(Max(max - 1, 0), |input|);
    ghost var e := LineEnd(input, 0, limit);
    var i := 0;
    while i + 1 < max
      invariant 0 <= i <= e && LineEnd(input, i, limit) == e
      invariant forall k :: 0 <= k < i ==> buf[k] == input[k]
      invariant forall k :: i < k < buf.Length ==> buf[k] == old(buf[k])
      decreases max - i
    {
      if i >= |input| {
        break;
      }
      var c := input[i];
      buf[i] := c;
      i := i + 1;
      if c == '\n' || c == '\r' {
        break;
      }
    }
    buf[i] := '\0';
    consumed := i;
    assert buf[..consumed] == input[..e];
  }

  /**
   * safestrcpy: like strncpy but always terminated: for n > 0 it copies
   * the first Min(L, n - 1) characters of t, L its length, stores a NUL
   * after them and, when t ended first, a second NUL after the one it
   * copied. It writes nothing for n <= 0 and never at or beyond s[n].
   */
  method Safestrcpy(s: array<char>, t: seq<char>, n: int)
    requires n <= s.Length
    modifies s
    ensures forall k :: 0 <= k < s.Length ==> s[k] == SafeCopied(old(s[k]), t, n, k)
    ensures n > 0 ==> UpToNul(s[..]) == UpToNul(t)[..Min(|UpToNul(t)|, n - 1)]
  {
    if n <= 0 {
      return;
    }
    ghost var L := |UpToNul(t)|;
    var m := n;
    var i := 0;
    var copying := true;
    while copying
      invariant 0 <= i < n && i <= L + 1
      invariant copying ==> m == n - i && i <= L
      invariant !copying ==> (i == L + 1 && m == n - i) || (i == n - 1 && i <= L)
      invariant forall k :: 0 <= k < i ==> s[k] == At(t, k)
      invariant forall k :: i <= k < s.Length ==> s[k] == old(s[k])
      decreases n - i + (if copying then 1 else 0)
    {
      m := m - 1;
      if m > 0 {
        s[i] := At(t, i);
        copying := s[i] != '\0';
        i := i + 1;
      } else {
        copying := false;
      }
    }
    s[i] := '\0';
    SafestrcpyTerminates(s[..], t, n);
  }

  /** What safestrcpy(s, t, n) leaves at s[k], given the character o that was there. */
  function SafeCopied(o: char, t: seq<char>, n: int, k: nat): char
  {
    var L := |UpToNul(t)|;
    if n <= 0 || k >= n then o
    else if k < Min(L, n - 1) then t[k]
    else if k == Min(L, n - 1) || (L < n - 1 && k == L + 1) then '\0'
    else o
  }

  lemma SafestrcpyTerminates(s: seq<char>, t: seq<char>, n: int)
    requires 0 < n <= |s|
    requires forall k :: 0 <= k < Min(|UpToNul(t)|, n - 1) ==> s[k] == t[k]
    requires s[Min(|UpToNul(t)|, n - 1)] == '\0'
    ensures UpToNul(s) == UpToNul(t)[..Min(|UpToNul(t)|, n - 1)]
  {
    var m := Min(|UpToNul(t)|, n - 1);
    assert forall k :: 0 <= k < m ==> s[k] == UpToNul(t)[k] && s[k] != '\0';
    CString.UpToNulAt(s, m);
  }

  /** strcmp: strncmp with the largest unsigned 32-bit count. */
  method Strcmp(s1: seq<char>, s2: seq<char>) returns (r: int)
    ensures r == 0 <==> CString.Within(s1, U32 - 1) == CString.Within(s2, U32 - 1)
    ensures |UpToNul(s1)| < U32 - 1 && |UpToNul(s2)| < U32 - 1 ==> (r == 0 <==> UpToNul(s1) == UpToNul(s2))
  {
    r := CString.Strncmp(s1, s2, U32 - 1);
  }
}
