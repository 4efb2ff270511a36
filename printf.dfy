/**
 * The formatting core that kernel/klib.c (lines 19-216) and
 * ulib/unix/stdio.c (lines 23-160) share line for line: printint and the
 * buffer mode of vprintf behind snprintf. Output to a file descriptor
 * (the screen mode) is I/O and is not modelled.
 *
 * The model keeps, for every character vprintf produces, whether buffer
 * mode stores it in the caller's buffer: the %d and %x/%p branches declare
 * a local `char buf[16]` that shadows the caller's buffer, so their digits
 * are counted in the length but never reach the caller.
 */
module Printf {
  import opened Common
  import opened Numerals
  import opened CText

  type int32 = x: int | -0x8000_0000 <= x < 0x8000_0000

  /** The unsigned value printint formats: -xx for a signed negative, else xx as a uint. */
  function Magnitude(xx: int32, sgn: bool): (x: nat)
    ensures x < U32
  {
    if sgn && xx < 0 then -(xx as int) else if xx < 0 then xx as int + U32 else xx as int
  }

  /** What printint produces: '-' only for a signed negative value, then the digits, most significant first. */
  function Render(xx: int32, base: nat, sgn: bool): (s: seq<char>)
    requires Base(base)
  {
    (if sgn && xx < 0 then "-" else "") + Digits(Magnitude(xx, sgn), base, true)
  }

  lemma RenderLength(xx: int32, base: nat, sgn: bool)
    requires Base(base)
    ensures 1 <= |Render(xx, base, sgn)| <= 11
    ensures |Digits(Magnitude(xx, sgn), base, true)| <= 10
  {
    var x := Magnitude(xx, sgn);
    if base == 10 {
      assert Pow(10, 10) == 10_000_000_000 by {
        assert Pow(10, 5) == 100_000;
      }
      DigitsLength(x, 10, true, 10);
    } else {
      assert Pow(16, 8) == 0x1_0000_0000 by {
        assert Pow(16, 4) == 0x1_0000;
      }
      DigitsLength(x, 16, true, 8);
    }
  }

  /** printint's do-while loop: the digits of x0, least significant first, from buf[0]. */
  method StoreDigits(x0: nat, base: nat, upper: bool, buf: array<char>) returns (i: nat)
    requires Base(base) && buf.Length >= 16 && |Digits(x0, base, upper)| <= 10
    modifies buf
    ensures i == |Digits(x0, base, upper)| && Reverse(buf[..i]) == Digits(x0, base, upper)
  {
    ghost var all := Digits(x0, base, upper);
    var x: nat := x0;
    i := 0;
    var more := true;
    assert all[..|all|] == all;
    while more
      invariant i <= |all| && (more <==> i < |all|)
      invariant more ==> Digits(x, base, upper) == all[..|all| - i]
      invariant forall k :: 0 <= k < i ==> buf[k] == all[|all| - 1 - k]
      decreases |all| - i
    {
      StoreStep(x, base, upper, all, i);
      buf[i] := DigitChar(x % base, upper);
      i := i + 1;
      x := x / base;
      more := x != 0;
    }
    MirrorIsReverse(buf[..i], all);
  }

  /** The digits printint's loop has still to store: none once the value is 0. */
  function Pending(x: nat, base: nat, upper: bool): seq<char>
    requires Base(base)
  {
    if x == 0 then [] else Digits(x, base, upper)
  }

  /**
   * One round of the do-while loop: when the digits of x are the first
   * |all| - i digits still to store, it stores the last of those and
   * leaves the rest to x / base.
   */
  lemma StoreStep(x: nat, base: nat, upper: bool, all: seq<char>, i: nat)
    requires Base(base) && i < |all|
    requires Digits(x, base, upper) == all[..|all| - i]
    ensures x % base < 16
    ensures DigitChar(x % base, upper) == all[|all| - 1 - i]
    ensures Pending(x / base, base, upper) == all[..|all| - (i + 1)]
    ensures (x / base != 0) <==> i + 1 < |all|
  {
    DigitsUnfold(x, base, upper);
    var p := Pending(x / base, base, upper);
    assert all[..|all| - i] == p + [DigitChar(x % base, upper)];
    assert all[..|all| - i][..|all| - (i + 1)] == all[..|all| - (i + 1)];
  }

  lemma {:induction false} MirrorIsReverse<T>(a: seq<T>, d: seq<T>)
    requires |a| == |d| && forall k :: 0 <= k < |a| ==> a[k] == d[|d| - 1 - k]
    ensures Reverse(a) == d
  {
    forall k | 0 <= k < |a|
      ensures Reverse(a)[k] == d[k]
    {
      ReverseAt(a, k);
    }
  }

  lemma DigitsUnfold(x: nat, base: nat, upper: bool)
    requires Base(base)
    ensures x != 0 ==> x / base < x
    ensures Digits(x, base, upper) == (if x / base == 0 then [] else Digits(x / base, base, upper)) + [DigitChar(x % base, upper)]
  {
    DivMod(x, base);
  }

  /** printint's last loop: outbuf[len - (i + 1)] := buf[i] for i from len - 1 down to 0. */
  method CopyReversed(buf: array<char>, len: nat, outbuf: array<char>)
    requires len <= buf.Length && len <= outbuf.Length && buf != outbuf
    modifies outbuf
    ensures outbuf[..len] == Reverse(buf[..len])
    ensures outbuf[len..] == old(outbuf[len..])
  {
    var i := len;
    while i > 0
      invariant 0 <= i <= len
      invariant forall m :: 0 <= m < len - i ==> outbuf[m] == buf[len - 1 - m]
      invariant outbuf[len..] == old(outbuf[len..])
    {
      i := i - 1;
      outbuf[len - (i + 1)] := buf[i];
    }
    forall m | 0 <= m < len
      ensures outbuf[..len][m] == Reverse(buf[..len])[m]
    {
      ReverseAt(buf[..len], m);
    }
  }

  /**
   * printint: the digits least significant first in a local buffer, '-'
   * after them for a signed negative value, then the whole copied to
   * outbuf in reverse.
   */
  method PrintInt(xx: int32, base: nat, sgn: bool, outbuf: array<char>) returns (len: nat)
    requires Base(base) && outbuf.Length >= 16
    modifies outbuf
    ensures len == |Render(xx, base, sgn)| && len <= 11
    ensures outbuf[..len] == Render(xx, base, sgn)
    ensures outbuf[len..] == old(outbuf[len..])
  {
    RenderLength(xx, base, sgn);
    var buf := new char[16];
    var neg := sgn && xx < 0;
    var i := StoreDigits(Magnitude(xx, sgn), base, true, buf);
    ghost var digitsPart := buf[..i];
    if neg {
      buf[i] := '-';
      i := i + 1;
      assert buf[..i] == digitsPart + ['-'];
      ReverseSnoc(digitsPart, '-');
    }
    len := i;
    CopyReversed(buf, len, outbuf);
  }

  /** A variadic argument: an int (for %d, %x, %p and %c) or a possibly null string (for %s). */
  datatype Arg = Num(v: int32) | Str(s: Option<seq<char>>)

  /** One produced character, and whether buffer mode stores it in the caller's buffer. */
  datatype Cell = Cell(c: char, stored: bool)

  /** vprintf's loop state: after a '%', how many arguments were taken, what was produced. */
  datatype Formatter = Formatter(pct: bool, next: nat, out: seq<Cell>)

  /** va_arg(ap, int); an argument that is missing or not an int reads as 0. */
  function NumAt(args: seq<Arg>, i: nat): int32
  {
    if i < |args| && args[i].Num? then args[i].v else 0
  }

  /** va_arg(ap, char*) with a null pointer replaced by "(null)"; a missing argument reads as null. */
  function StrAt(args: seq<Arg>, i: nat): seq<char>
  {
    if i < |args| && args[i].Str? && args[i].s.Some? then args[i].s.value else "(null)"
  }

  function Cells(s: seq<char>, stored: bool): (r: seq<Cell>)
    ensures |r| == |s| && forall k :: 0 <= k < |s| ==> r[k] == Cell(s[k], stored)
  {
    seq(|s|, k requires 0 <= k < |s| => Cell(s[k], stored))
  }

  /**
   * One iteration of vprintf's loop on format character c, given the
   * buffer-mode limit maxlen. As written (fixed false) the digits of %d
   * and %x/%p go to the shadowing local buffer, and %c takes its argument
   * only when len < maxlen. With fixed, the digits are stored and %c
   * always takes its argument, as ISO C specifies.
   */
  function Step(f: Formatter, c: char, args: seq<Arg>, maxlen: nat, fixed: bool): (g: Formatter)
    ensures |f.out| <= |g.out| && g.out[..|f.out|] == f.out
    ensures g.next == f.next || g.next == f.next + 1
  {
    if !f.pct then
      if c == '%' then f.(pct := true) else f.(out := f.out + [Cell(c, true)])
    else if c == 'd' then
      Formatter(false, f.next + 1, f.out + Cells(Render(NumAt(args, f.next), 10, true), fixed))
    else if c == 'x' || c == 'p' then
      Formatter(false, f.next + 1, f.out + Cells(Render(NumAt(args, f.next), 16, false), fixed))
    else if c == 's' then
      Formatter(false, f.next + 1, f.out + Cells(UpToNul(StrAt(args, f.next)), true))
    else if c == 'c' then
      Formatter(false, if fixed || |f.out| < maxlen then f.next + 1 else f.next,
                f.out + [Cell(CharOf(NumAt(args, f.next)), true)])
    else if c == '%' then
      Formatter(false, f.next, f.out + [Cell('%', true)])
    else
      Formatter(false, f.next, f.out + [Cell('%', true), Cell(c, true)])
  }

  /** The char an int argument of %c is stored as. */
  function CharOf(v: int32): char
  {
    ((v as int) % 256) as char
  }

  /** vprintf's loop over the whole format string. */
  function Run(fmt: seq<char>, args: seq<Arg>, maxlen: nat, fixed: bool): Formatter
  {
    if fmt == [] then Formatter(false, 0, [])
    else Step(Run(fmt[..|fmt| - 1], args, maxlen, fixed), fmt[|fmt| - 1], args, maxlen, fixed)
  }

  /** The produced text, as the screen mode would print it. */
  function Text(cells: seq<Cell>): (t: seq<char>)
    ensures |t| == |cells| && forall k :: 0 <= k < |t| ==> t[k] == cells[k].c
  {
    seq(|cells|, k requires 0 <= k < |cells| => cells[k].c)
  }

  /** The caller's buffer after the stored characters below maxlen are written. */
  function StoredIn(prior: seq<char>, maxlen: nat, cells: seq<Cell>): (b: seq<char>)
    ensures |b| == |prior|
  {
    seq(|prior|, k requires 0 <= k < |prior| =>
      if k < maxlen && k < |cells| && cells[k].stored then cells[k].c else prior[k])
  }

  /** Where buffer mode writes the terminator: len + 1 when len < maxlen, else maxlen. */
  function TerminatorAt(len: nat, maxlen: nat): nat
  {
    if len < maxlen then len + 1 else maxlen
  }

  /** The buffer vprintf leaves behind, as written. A terminator index past the buffer is not written. */
  function AsWrittenBuffer(prior: seq<char>, maxlen: nat, cells: seq<Cell>): (b: seq<char>)
    ensures |b| == |prior|
  {
    var stored := StoredIn(prior, maxlen, cells);
    var t := TerminatorAt(|cells|, maxlen);
    if t < |stored| then stored[t := '\0'] else stored
  }

  lemma StoredInSnoc(prior: seq<char>, maxlen: nat, cells: seq<Cell>, c: Cell)
    requires maxlen <= |prior|
    ensures StoredIn(prior, maxlen, cells + [c])
         == if |cells| < maxlen && c.stored then StoredIn(prior, maxlen, cells)[|cells| := c.c]
            else StoredIn(prior, maxlen, cells)
  {
  }

  lemma StoredInUnstored(prior: seq<char>, maxlen: nat, cells: seq<Cell>, s: seq<char>)
    ensures StoredIn(prior, maxlen, cells + Cells(s, false)) == StoredIn(prior, maxlen, cells)
  {
  }

  /** Stores one produced character at len when len < maxlen; counts it either way. */
  method Put(buf: array<char>, maxlen: nat, len: nat, c: char, ghost prior: seq<char>, ghost out: seq<Cell>)
    returns (len': nat)
    requires maxlen <= buf.Length == |prior| && len == |out|
    requires buf[..] == StoredIn(prior, maxlen, out)
    modifies buf
    ensures len' == len + 1 && buf[..] == StoredIn(prior, maxlen, out + [Cell(c, true)])
  {
    StoredInSnoc(prior, maxlen, out, Cell(c, true));
    if len < maxlen {
      buf[len] := c;
    }
    len' := len + 1;
  }

  /** The size of the local char buf[16] the %d and %x/%p branches declare. */
  const LOCAL_BUF := 16

  /**
   * Whether the copy loop of a %d or %x/%p conversion that counts n
   * characters from len at stores at an index of the local buffer that
   * lies at or past its end. It stores at at, at + 1, ... below
   * min(at + n, maxlen), so this is when the first of those at or past
   * 16 is still among them.
   */
  predicate LocalOverrun(at: nat, n: nat, maxlen: nat)
  {
    Max(at, LOCAL_BUF) < Min(at + n, maxlen)
  }

  /** Whether the as-written buffer-mode run of fmt overruns the local buffer in some %d, %x or %p. */
  predicate Overruns(fmt: seq<char>, args: seq<Arg>, maxlen: nat)
  {
    if fmt == [] then false
    else
      var f := Run(fmt[..|fmt| - 1], args, maxlen, false);
      var c := fmt[|fmt| - 1];
      Overruns(fmt[..|fmt| - 1], args, maxlen)
      || (f.pct && (c == 'd' || c == 'x' || c == 'p')
          && LocalOverrun(|f.out|, |Render(NumAt(args, f.next), if c == 'd' then 10 else 16, c == 'd')|, maxlen))
  }

  /**
   * The copy loop of the %d and %x/%p branches: it stores the conversion
   * letter at each len below maxlen into the shadowing local array and
   * counts segmentLen characters. A store at or past the local array's
   * end is undefined in C: the model stores nothing there and reports it
   * as overrun.
   */
  method ShadowedCopy(local: array<char>, maxlen: nat, len: nat, c: char, segmentLen: nat)
    returns (len': nat, overrun: bool)
    requires local.Length == LOCAL_BUF
    modifies local
    ensures len' == len + segmentLen
    ensures overrun == LocalOverrun(len, segmentLen, maxlen)
    ensures forall k :: 0 <= k < local.Length ==>
      local[k] == if len <= k < len + segmentLen && k < maxlen then c else old(local[k])
  {
    len' := len;
    overrun := false;
    var j := 0;
    while j != segmentLen
      invariant 0 <= j <= segmentLen && len' == len + j
      invariant overrun == LocalOverrun(len, j, maxlen)
      invariant forall k :: 0 <= k < local.Length ==>
        local[k] == if len <= k < len + j && k < maxlen then c else old(local[k])
    {
      if len' < maxlen {
        if len' < local.Length {
          local[len'] := c;
        } else {
          overrun := true;
        }
      }
      len' := len' + 1;
      j := j + 1;
    }
  }

  /** The copy loop of the %s branch: the string's characters up to its NUL. */
  method CopyString(buf: array<char>, maxlen: nat, len: nat, s: seq<char>, ghost prior: seq<char>, ghost out: seq<Cell>)
    returns (len': nat)
    requires maxlen <= buf.Length == |prior| && len == |out|
    requires buf[..] == StoredIn(prior, maxlen, out)
    modifies buf
    ensures len' == len + |UpToNul(s)|
    ensures buf[..] == StoredIn(prior, maxlen, out + Cells(UpToNul(s), true))
  {
    ghost var seg := Cells(UpToNul(s), true);
    len' := len;
    var j := 0;
    while j < |s| && s[j] != '\0'
      invariant 0 <= j <= |UpToNul(s)|
      invariant s[..j] == UpToNul(s)[..j]
      invariant len' == len + j
      invariant buf[..] == StoredIn(prior, maxlen, out + seg[..j])
    {
      assert j < |UpToNul(s)|;
      assert out + seg[..j + 1] == (out + seg[..j]) + [Cell(s[j], true)];
      len' := Put(buf, maxlen, len', s[j], prior, out + seg[..j]);
      j := j + 1;
    }
    assert seg[..j] == seg;
  }

  /**
   * vprintf in buffer mode (snprintf): walks the format, stores each
   * character at len while len < maxlen and counts every character
   * produced, stored or not. outside reports that the terminator index
   * lies past the caller's buffer, a write the source performs and the
   * model does not; overrun, that a %d, %x or %p stored past the end of
   * its local buffer, which the model does not either.
   */
  method VprintfBuffer(buf: array<char>, maxlen: nat, fmt: seq<char>, args: seq<Arg>)
    returns (len: nat, outside: bool, overrun: bool)
    requires '\0' !in fmt && maxlen <= buf.Length
    modifies buf
    ensures len == |Run(fmt, args, maxlen, false).out|
    ensures buf[..] == AsWrittenBuffer(old(buf[..]), maxlen, Run(fmt, args, maxlen, false).out)
    ensures outside == (TerminatorAt(len, maxlen) >= buf.Length)
    ensures overrun == Overruns(fmt, args, maxlen)
  {
    ghost var prior := buf[..];
    ghost var f := Formatter(false, 0, []);
    var pct := false;
    var next := 0;
    len := 0;
    overrun := false;
    var i := 0;
    while i < |fmt|
      invariant 0 <= i <= |fmt|
      invariant f == Run(fmt[..i], args, maxlen, false)
      invariant overrun == Overruns(fmt[..i], args, maxlen)
      invariant pct == f.pct && next == f.next && len == |f.out|
      invariant buf[..] == StoredIn(prior, maxlen, f.out)
    {
      assert fmt[..i + 1][..i] == fmt[..i];
      var c := fmt[i];
      if !pct {
        if c == '%' {
          pct := true;
        } else {
          len := Put(buf, maxlen, len, c, prior, f.out);
        }
      } else if c == 'd' || c == 'x' || c == 'p' {
        var local := new char[16];
        var base := if c == 'd' then 10 else 16;
        var segmentLen := PrintInt(NumAt(args, next), base, c == 'd', local);
        var over;
        len, over := ShadowedCopy(local, maxlen, len, c, segmentLen);
        overrun := overrun || over;
        StoredInUnstored(prior, maxlen, f.out, Render(NumAt(args, next), base, c == 'd'));
        next := next + 1;
        pct := false;
      } else if c == 's' {
        len := CopyString(buf, maxlen, len, StrAt(args, next), prior, f.out);
        next := next + 1;
        pct := false;
      } else if c == 'c' {
        var taken := len < maxlen;
        len := Put(buf, maxlen, len, CharOf(NumAt(args, next)), prior, f.out);
        if taken {
          next := next + 1;
        }
        pct := false;
      } else if c == '%' {
        len := Put(buf, maxlen, len, '%', prior, f.out);
        pct := false;
      } else {
        len := Put(buf, maxlen, len, '%', prior, f.out);
        len := Put(buf, maxlen, len, c, prior, f.out + [Cell('%', true)]);
        assert f.out + [Cell('%', true), Cell(c, true)] == f.out + [Cell('%', true)] + [Cell(c, true)];
        pct := false;
      }
      f := Step(f, c, args, maxlen, false);
      i := i + 1;
    }
    assert fmt[..i] == fmt;
    var t := if len < maxlen then len + 1 else maxlen;
    outside := t >= buf.Length;
    if !outside {
      buf[t] := '\0';
    }
  }

  // ---------------------------------------------------------------------
  // What the produced text is, format by format.

  /** A format without '%' is copied as it is and takes no argument. */
  lemma {:induction false} RunLiteral(fmt: seq<char>, args: seq<Arg>, maxlen: nat, fixed: bool)
    requires '%' !in fmt
    ensures Run(fmt, args, maxlen, fixed) == Formatter(false, 0, Cells(fmt, true))
  {
    if fmt != [] {
      assert '%' !in fmt[..|fmt| - 1];
      RunLiteral(fmt[..|fmt| - 1], args, maxlen, fixed);
    }
  }

  /** %s with a null pointer produces "(null)". */
  lemma NullStringPrintsNull(maxlen: nat, fixed: bool)
    ensures Text(Run("%s", [Str(None)], maxlen, fixed).out) == "(null)"
  {
    assert "%s"[..1] == "%";
    assert "%"[..0] == [];
    assert Run("%", [Str(None)], maxlen, fixed) == Formatter(true, 0, []);
    assert UpToNul("(null)") == "(null)";
  }

  /** %% produces one '%'; an unknown conversion produces '%' and the letter; neither takes an argument. */
  lemma PercentAndUnknown(c: char, args: seq<Arg>, maxlen: nat, fixed: bool)
    requires c != 'd' && c != 'x' && c != 'p' && c != 's' && c != 'c' && c != '%'
    ensures Run("%%", args, maxlen, fixed) == Formatter(false, 0, [Cell('%', true)])
    ensures Run(['%', c], args, maxlen, fixed) == Formatter(false, 0, [Cell('%', true), Cell(c, true)])
  {
    assert "%%"[..1] == "%";
    assert ['%', c][..1] == "%";
    assert "%"[..0] == [];
    assert Run("%", args, maxlen, fixed) == Formatter(true, 0, []);
  }

  /** What %d prints reads back through strtol as the same int, up to a following non-digit. */
  lemma StrtolReadsRender(xx: int32, rest: seq<char>)
    requires !IsDigitIn(At(rest, 0), 10)
    ensures Strtol(Render(xx, 10, true) + rest, 0, 10) == Conversion(xx as int, |Render(xx, 10, true)|)
  {
    var d := Digits(Magnitude(xx, true), 10, true);
    if xx >= 0 {
      assert Render(xx, 10, true) == d;
      StrtolOfDigits(xx as int, 10, rest);
    } else {
      var s := "-" + d + rest;
      assert Render(xx, 10, true) + rest == s;
      assert s[1..1 + |d|] == d;
      assert At(s, 1 + |d|) == At(rest, 0);
      StrtolReadsNegativeAt(s, 0, Magnitude(xx, true), 10, 1 + |d|);
    }
  }

  /** Without %c the as-written loop and the corrected one take the same arguments and produce the same text. */
  lemma {:induction false} OnlyCharTakesAsWritten(fmt: seq<char>, args: seq<Arg>, maxlen: nat)
    requires 'c' !in fmt
    ensures Run(fmt, args, maxlen, false).next == Run(fmt, args, maxlen, true).next
    ensures Run(fmt, args, maxlen, false).pct == Run(fmt, args, maxlen, true).pct
    ensures Text(Run(fmt, args, maxlen, false).out) == Text(Run(fmt, args, maxlen, true).out)
  {
    if fmt != [] {
      var init := fmt[..|fmt| - 1];
      assert 'c' !in init;
      OnlyCharTakesAsWritten(init, args, maxlen);
      var f, g := Run(init, args, maxlen, false), Run(init, args, maxlen, true);
      assert |f.out| == |g.out| && f.out[..] == f.out;
      var c := fmt[|fmt| - 1];
      var f', g' := Step(f, c, args, maxlen, false), Step(g, c, args, maxlen, true);
      assert |f'.out| == |g'.out|;
      forall k | 0 <= k < |f'.out|
        ensures f'.out[k].c == g'.out[k].c
      {
        if k < |f.out| {
          assert f'.out[k] == f.out[k] && g'.out[k] == g.out[k];
          assert Text(f.out)[k] == Text(g.out)[k];
        }
      }
    }
  }

  /** The corrected loop takes the same arguments and produces the same cells whatever maxlen is. */
  lemma {:induction false} FixedIgnoresMaxlen(fmt: seq<char>, args: seq<Arg>, m1: nat, m2: nat)
    ensures Run(fmt, args, m1, true) == Run(fmt, args, m2, true)
  {
    if fmt != [] {
      FixedIgnoresMaxlen(fmt[..|fmt| - 1], args, m1, m2);
    }
  }

  /** Buffer mode never writes past index maxlen of the caller's buffer. */
  lemma AsWrittenStaysWithin(prior: seq<char>, maxlen: nat, cells: seq<Cell>)
    ensures forall k :: maxlen < k < |prior| ==> AsWrittenBuffer(prior, maxlen, cells)[k] == prior[k]
  {
  }

  // ---------------------------------------------------------------------
  // The mismatches with snprintf as ISO C (section 7.21.6.5) defines it.

  /** As written, "%d" of 5 into a buffer of x's leaves the x in place and puts the terminator at 2. */
  lemma DigitsNeverStored()
    ensures Run("%d", [Num(5)], 4, false).out == [Cell('5', false)]
    ensures AsWrittenBuffer("xxxx", 4, Run("%d", [Num(5)], 4, false).out) == "xx\0x"
  {
    assert "%d"[..1] == "%";
    assert "%"[..0] == [];
    assert Render(5, 10, true) == "5";
  }

  /** As written, "ab" into a buffer of x's is terminated at index 3: the C string read back is "abx". */
  lemma TerminatorOneTooFar()
    ensures Run("ab", [], 4, false).out == [Cell('a', true), Cell('b', true)]
    ensures AsWrittenBuffer("xxxx", 4, Run("ab", [], 4, false).out) == "abx\0"
  {
    RunLiteral("ab", [], 4, false);
  }

  /** As written, a %c past a full buffer leaves its argument to the next conversion: "%c%d" counts "A65", not "A7". */
  lemma CharArgumentReused()
    ensures Text(Run("%c%d", [Num(65), Num(7)], 0, false).out) == "A65"
  {
    CharThenPercent(false);
    assert "%c%d"[..3] == "%c%";
    RenderSixtyFive();
  }

  lemma RenderSixtyFive()
    ensures Render(65, 10, true) == "65"
  {
    assert Digits(6, 10, true) == "6";
    assert Digits(65, 10, true) == "6" + "5";
  }

  /**
   * As written, snprintf(b, 32, "0123456789ABCDEF%d", 1) stores the
   * letter 'd' at len 16 of the %d branch's 16-character local buffer,
   * one past its end.
   */
  lemma LocalOverrunAsWritten()
    ensures Overruns("0123456789ABCDEF%d", [Num(1)], 32)
  {
    var lit := "0123456789ABCDEF";
    var fmt := "0123456789ABCDEF%d";
    RunLiteral(lit, [Num(1)], 32, false);
    assert fmt[..17] == lit + "%" && (lit + "%")[..16] == lit;
    var f := Run(fmt[..17], [Num(1)], 32, false);
    assert f == Formatter(true, 0, Cells(lit, true));
    assert Render(1, 10, true) == "1";
    assert f.pct && fmt[17] == 'd' && LocalOverrun(|f.out|, |Render(NumAt([Num(1)], f.next), 10, true)|, 32);
  }

  /** A limit of at most 16, such as the device name's in netdev_alloc, never overruns the local buffer. */
  lemma {:induction false} NoOverrunWithinLocal(fmt: seq<char>, args: seq<Arg>, maxlen: nat)
    requires maxlen <= LOCAL_BUF
    ensures !Overruns(fmt, args, maxlen)
  {
    if fmt != [] {
      NoOverrunWithinLocal(fmt[..|fmt| - 1], args, maxlen);
    }
  }

  /** With the corrected loop the %c consumes its argument, and "%c%d" counts "A7". */
  lemma CharArgumentTakenOnce()
    ensures Text(Run("%c%d", [Num(65), Num(7)], 0, true).out) == "A7"
  {
    CharThenPercent(true);
    assert "%c%d"[..3] == "%c%";
    assert Render(7, 10, true) == "7";
  }

  /** The state after "%c%" with no room left: the %c produced 'A' and used up its argument only when fixed. */
  lemma CharThenPercent(fixed: bool)
    ensures Run("%c%", [Num(65), Num(7)], 0, fixed) == Formatter(true, if fixed then 1 else 0, [Cell('A', true)])
  {
    var args := [Num(65), Num(7)];
    assert "%c%"[..2] == "%c" && "%c"[..1] == "%" && "%"[..0] == [];
    assert Run("%", args, 0, fixed) == Formatter(true, 0, []);
    assert Run("%c", args, 0, fixed) == Formatter(false, if fixed then 1 else 0, [Cell('A', true)]);
  }

  /**
   * The buffer snprintf is meant to leave: every produced character that
   * fits in maxlen - 1 places, digits included, then the terminator.
   */
  function IntendedBuffer(prior: seq<char>, maxlen: nat, cells: seq<Cell>): (b: seq<char>)
    requires 0 < maxlen <= |prior|
    ensures |b| == |prior|
  {
    var m := Min(|cells|, maxlen - 1);
    seq(|prior|, k requires 0 <= k < |prior| =>
      if k < m then cells[k].c else if k == m then '\0' else prior[k])
  }

  /** snprintf as ISO C defines it: the corrected loop's text, cut to fit, and its full length. */
  function IntendedSnprintf(prior: seq<char>, maxlen: nat, fmt: seq<char>, args: seq<Arg>): (r: (seq<char>, nat))
    requires 0 < maxlen <= |prior|
    ensures |r.0| == |prior|
  {
    var cells := Run(fmt, args, maxlen, true).out;
    (IntendedBuffer(prior, maxlen, cells), |cells|)
  }

  /**
   * With the intended definition, the C string left in the buffer is the
   * produced text cut to maxlen - 1 characters, whatever the buffer held,
   * and the length is that of the whole text.
   */
  lemma IntendedHoldsTruncatedText(prior: seq<char>, maxlen: nat, fmt: seq<char>, args: seq<Arg>)
    requires 0 < maxlen <= |prior|
    requires '\0' !in Text(Run(fmt, args, maxlen, true).out)
    ensures var text := Text(Run(fmt, args, maxlen, true).out);
      var (b, len) := IntendedSnprintf(prior, maxlen, fmt, args);
      UpToNul(b) == text[..Min(|text|, maxlen - 1)] && len == |text|
  {
    var cells := Run(fmt, args, maxlen, true).out;
    var b := IntendedBuffer(prior, maxlen, cells);
    var m := Min(|cells|, maxlen - 1);
    assert forall k :: 0 <= k < m ==> b[k] == Text(cells)[k] && b[k] != '\0';
    UpToNulOfPrefix(b, m);
  }

  lemma {:induction false} UpToNulOfPrefix(b: seq<char>, m: nat)
    requires m < |b| && b[m] == '\0' && forall k :: 0 <= k < m ==> b[k] != '\0'
    ensures UpToNul(b) == b[..m]
  {
    if m > 0 {
      UpToNulOfPrefix(b[1..], m - 1);
      assert b[..m] == [b[0]] + b[1..][..m - 1];
    }
  }
}
