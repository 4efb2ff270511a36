/**
 * The kernel's own small C library (kernel/klib.c): strtol as it is
 * written, and the host/network conversions of 16-bit values. isspace and
 * isdigit are the Ctype functions, strncmp is CString.Strncmp and the
 * formatting routines are those of module Printf (the same code).
 */
module Klib {
  import opened Common
  import opened Ctype
  import opened Numerals
  import opened CText
  import Platform
  import Printf

  /**
   * What the two loops of kernel/klib.c's strtol compute from position
   * str: the value of the decimal digit run after the white space, and
   * the position where the run stops.
   */
  function DecimalRun(s: seq<char>, str: nat): (r: Conversion)
    ensures r.end == DigitEnd(s, SkipSpace(s, str), 10)
    ensures SkipSpace(s, str) <= r.end && r.value >= 0
  {
    var p := SkipSpace(s, str);
    var e := DigitEnd(s, p, 10);
    if e == p then Conversion(0, e)
    else
      assert forall k :: 0 <= k < e - p ==> s[p..e][k] == At(s, p + k);
      Conversion(ValueOf(s[p..e], 10), e)
  }

  lemma IsDigitMatchesBase10(c: char)
    ensures IsDigit(c as int) == 1 <==> IsDigitIn(c, 10)
  {
  }

  /**
   * strtol as written: skips white space, accumulates decimal digits
   * whatever base is, and assigns the address of its local cursor to its
   * own parameter, so the caller's end pointer keeps the value it had.
   * Overflow of the int accumulator is not modelled.
   */
  method StrtolAsWritten(s: seq<char>, str: nat, endptr: nat, base: int) returns (n: int, endOut: nat)
    ensures endOut == endptr
    ensures n == DecimalRun(s, str).value
  {
    var p := str;
    while IsSpace(At(s, p) as int) == 1
      invariant str <= p && SkipSpace(s, p) == SkipSpace(s, str)
      decreases |s| - p
    {
      p := p + 1;
    }
    var p0 := p;
    n := 0;
    while IsDigit(At(s, p) as int) == 1
      invariant p0 <= p && (p == p0 || p <= |s|)
      invariant DigitEnd(s, p, 10) == DigitEnd(s, p0, 10)
      invariant forall k :: p0 <= k < p ==> IsDigitIn(At(s, k), 10)
      invariant p0 > |s| ==> p == p0 && n == 0
      invariant p0 <= |s| ==> p <= |s| && AllDigits(s[p0..p], 10) && n == ValueOf(s[p0..p], 10)
      decreases |s| - p
    {
      IsDigitMatchesBase10(At(s, p));
      assert s[p0..p + 1] == s[p0..p] + [s[p]];
      ValueOfSnoc(s[p0..p], s[p], 10);
      n := n * 10 + (At(s, p) as int - '0' as int);
      p := p + 1;
    }
    IsDigitMatchesBase10(At(s, p));
    assert p0 <= |s| && p == p0 ==> s[p0..p] == [];
    endOut := endptr;
  }

  /** The base argument has no effect: "ff" reads as 0 in base 16, where the contract gives 255. */
  lemma StrtolIgnoresBase()
    ensures DecimalRun("ff", 0).value == 0
    ensures Strtol("ff", 0, 16) == Conversion(255, 2)
  {
    assert SkipSpace("ff", 0) == 0;
    assert DigitEnd("ff", 0, 10) == 0;
    assert DigitEnd("ff", 2, 16) == 2;
    assert DigitEnd("ff", 0, 16) == 2;
    assert "ff"[0..2] == "ff";
    assert "ff"[..1] == "f";
    assert "f"[..0] == [];
  }

  /** byteorder(): which way a 32-bit 1 is laid out in memory. */
  function ByteOrder(littleEndianHost: bool): (order: int)
    ensures order == Platform.LITTLE_ENDIAN || order == Platform.BIG_ENDIAN
    ensures (order == Platform.LITTLE_ENDIAN) == littleEndianHost
  {
    if littleEndianHost then Platform.LITTLE_ENDIAN else Platform.BIG_ENDIAN
  }

  /** ntoh16 on a host whose byteorder() is order. */
  function Ntoh16(order: int, n: uint16): (h: uint16)
    ensures order == Platform.LITTLE_ENDIAN ==> h % 256 == n / 256 && h / 256 == n % 256
    ensures order != Platform.LITTLE_ENDIAN ==> h == n
  {
    if order == Platform.LITTLE_ENDIAN then Platform.ByteSwap16(n) else n
  }

  /** hton16: the same conversion in the other direction. */
  function Hton16(order: int, h: uint16): (n: uint16)
    ensures order == Platform.LITTLE_ENDIAN ==> n % 256 == h / 256 && n / 256 == h % 256
    ensures order != Platform.LITTLE_ENDIAN ==> n == h
  {
    if order == Platform.LITTLE_ENDIAN then Platform.ByteSwap16(h) else h
  }

  /** The 16-bit value a host of the given order loads from bytes [b0, b1]. */
  function HostLoad16(littleEndianHost: bool, b0: byte, b1: byte): uint16
  {
    if littleEndianHost then b0 + b1 * 256 else b0 * 256 + b1
  }

  /** ntoh16 of a loaded field is the field read in network (big-endian) order, on either host. */
  lemma NtohReadsNetworkOrder(littleEndianHost: bool, b0: byte, b1: byte)
    ensures Ntoh16(ByteOrder(littleEndianHost), HostLoad16(littleEndianHost, b0, b1)) == b0 * 256 + b1
  {
  }

  lemma HtonNtohInverse(order: int, v: uint16)
    ensures Hton16(order, Ntoh16(order, v)) == v && Ntoh16(order, Hton16(order, v)) == v
  {
    Platform.ByteSwap16Involutive(v);
  }

  /**
   * snprintf: vprintf in buffer mode with limit n. The caller promises a
   * buffer of at least n characters; outside reports the terminator write
   * past it that the source performs.
   */
  method Snprintf(s: array<char>, n: nat, fmt: seq<char>, args: seq<Printf.Arg>) returns (len: nat, outside: bool, overrun: bool)
    requires '\0' !in fmt && n <= s.Length
    modifies s
    ensures len == |Printf.Run(fmt, args, n, false).out|
    ensures s[..] == Printf.AsWrittenBuffer(old(s[..]), n, Printf.Run(fmt, args, n, false).out)
    ensures outside == (Printf.TerminatorAt(len, n) >= s.Length)
    ensures overrun == Printf.Overruns(fmt, args, n)
  {
    len, outside, overrun := Printf.VprintfBuffer(s, n, fmt, args);
  }
}
