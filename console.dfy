/**
 * The console's input line editor (kernel/console.c): a ring of
 * INPUT_BUF characters with a read index r, a commit index w and an edit
 * index e. consoleintr applies each key from the device to the ring and
 * consoleread hands committed characters to a reader. The indices are
 * unbounded here; the source's 32-bit unsigned indices wrap at 2^32, and
 * since INPUT_BUF divides 2^32 the slots and differences are the same.
 * Echoing, the screen, reboot/halt/procdump and the locks are left out.
 */
module Console {
  import opened Common
  import opened Numerals
  import Printf

  const INPUT_BUF: nat := 128

  /** Control characters: C(x) is x - '@'. */
  const CtrlD: int := 4
  const CtrlH: int := 8
  const CtrlP: int := 16
  const CtrlQ: int := 17
  const CtrlU: int := 21
  const CtrlZ: int := 26
  const Del: int := 0x7f
  const Newline: int := 10
  const Return: int := 13

  /** The input structure: the ring and its three indices. */
  datatype Input = Input(buf: seq<byte>, r: nat, w: nat, e: nat)

  /** The ring slot that index k names. */
  function Slot(s: Input, k: nat): byte
    requires |s.buf| == INPUT_BUF
  {
    s.buf[k % INPUT_BUF]
  }

  /** d holds the k characters from s.r on at its front, and o's bytes after them. */
  ghost predicate Copied(d: seq<byte>, o: seq<byte>, s: Input, k: nat)
    requires |s.buf| == INPUT_BUF
  {
    |d| == |o| && k <= |d|
    && (forall j :: 0 <= j < k ==> d[j] == Slot(s, s.r + j))
    && (forall j :: k <= j < |d| ==> d[j] == o[j])
  }

  /** Storing the next character at k copies one more. */
  lemma CopiedStep(d0: seq<byte>, d1: seq<byte>, o: seq<byte>, s: Input, k: nat, c: byte)
    requires |s.buf| == INPUT_BUF && Copied(d0, o, s, k) && k < |d0| && d1 == d0[k := c] && c == Slot(s, s.r + k)
    ensures Copied(d1, o, s, k + 1)
  {
  }

  /** r <= w <= e <= r + INPUT_BUF: the committed characters are [r, w), the line being edited [w, e). */
  predicate Inv(s: Input)
  {
    |s.buf| == INPUT_BUF && s.r <= s.w <= s.e <= s.r + INPUT_BUF
  }

  /** Where ^U stops erasing: at w, or just after a newline. */
  function KillBack(s: Input, e: nat): (k: nat)
    requires |s.buf| == INPUT_BUF && s.w <= e
    ensures s.w <= k <= e && (k == s.w || Slot(s, k - 1) == Newline as byte)
    ensures forall j :: k <= j < e ==> Slot(s, j) != Newline as byte
    decreases e - s.w
  {
    if e != s.w && Slot(s, e - 1) != Newline as byte then KillBack(s, e - 1) else e
  }

  /** The keys the switch handles without storing them. */
  predicate Special(c: int)
  {
    c == CtrlZ || c == CtrlQ || c == CtrlP || c == CtrlU || c == CtrlH || c == Del
  }

  /** The character a key stores: '\r' as '\n', truncated to a char. */
  function Stored(c: int): byte
    requires c >= 0
  {
    (if c == Return then Newline else c) % 256
  }

  /** One key of consoleintr's loop. */
  function Key(s: Input, c: int): (t: Input)
    requires Inv(s) && c >= 0
    ensures Inv(t)
  {
    if c == CtrlZ || c == CtrlQ || c == CtrlP then s
    else if c == CtrlU then s.(e := KillBack(s, s.e))
    else if c == CtrlH || c == Del then (if s.e != s.w then s.(e := s.e - 1) else s)
    else if c != 0 && s.e - s.r < INPUT_BUF then
      var ch := if c == Return then Newline else c;
      var e := s.e + 1;
      Input(s.buf[s.e % INPUT_BUF := ch % 256], s.r,
            if ch == Newline || ch == CtrlD || e == s.r + INPUT_BUF then e else s.w, e)
    else s
  }

  /** A sequence of keys, in order. */
  function Keys(s: Input, cs: seq<int>): (t: Input)
    requires Inv(s) && forall k :: 0 <= k < |cs| ==> cs[k] >= 0
    ensures Inv(t)
    decreases |cs|
  {
    if cs == [] then s else Keys(Key(s, cs[0]), cs[1..])
  }

  /** Two indices less than INPUT_BUF apart name different slots. */
  lemma DistinctSlots(a: nat, b: nat)
    requires a < b < a + INPUT_BUF
    ensures a % INPUT_BUF != b % INPUT_BUF
  {
    var qa, qb := a / INPUT_BUF, b / INPUT_BUF;
    assert a == qa * INPUT_BUF + a % INPUT_BUF;
    assert b == qb * INPUT_BUF + b % INPUT_BUF;
  }

  /**
   * A key stores a character exactly when it is nonzero, not one of the
   * editing or control keys, and fewer than INPUT_BUF characters are in
   * the ring; it goes to slot e, as '\n' for '\r'.
   */
  lemma KeyStores(s: Input, c: int)
    requires Inv(s) && c >= 0
    ensures var t := Key(s, c);
      (t.e == s.e + 1 <==> !Special(c) && c != 0 && s.e - s.r < INPUT_BUF)
      && (t.e == s.e + 1 ==>
            Slot(t, s.e) == Stored(c) && forall k :: 0 <= k < INPUT_BUF && k != s.e % INPUT_BUF ==> t.buf[k] == s.buf[k])
      && (t.e != s.e + 1 ==> t.buf == s.buf && t.w == s.w)
  {
  }

  /**
   * The line is committed (w moves, and to e) exactly when the key stored
   * '\n' or ^D or filled the ring.
   */
  lemma KeyCommits(s: Input, c: int)
    requires Inv(s) && c >= 0
    ensures var t := Key(s, c);
      var ch := if c == Return then Newline else c;
      (t.w != s.w <==> !Special(c) && c != 0 && s.e - s.r < INPUT_BUF
                       && (ch == Newline || ch == CtrlD || s.e + 1 == s.r + INPUT_BUF))
      && (t.w != s.w ==> t.w == t.e)
  {
  }

  /** No key erases or alters committed input: r is kept, w never goes back, slots [r, w) are unchanged. */
  lemma KeyKeepsCommitted(s: Input, c: int)
    requires Inv(s) && c >= 0
    ensures var t := Key(s, c);
      t.r == s.r && s.w <= t.w && s.w <= t.e
      && forall k :: s.r <= k < s.w ==> Slot(t, k) == Slot(s, k)
  {
    var t := Key(s, c);
    if t.e == s.e + 1 {
      KeyStores(s, c);
      forall k | s.r <= k < s.w
        ensures Slot(t, k) == Slot(s, k)
      {
        DistinctSlots(k, s.e);
      }
    }
  }

  /** Backspace and DEL remove the last character of the line being edited, and nothing when it is empty. */
  lemma BackspaceErasesOne(s: Input, c: int)
    requires Inv(s) && (c == CtrlH || c == Del)
    ensures Key(s, c) == if s.e != s.w then s.(e := s.e - 1) else s
  {
  }

  /** ^U erases the line being edited back to w or to the character after the last newline in it. */
  lemma KillLineErases(s: Input)
    requires Inv(s)
    ensures var t := Key(s, CtrlU);
      t.buf == s.buf && t.r == s.r && t.w == s.w && s.w <= t.e <= s.e
      && (t.e == s.w || Slot(s, t.e - 1) == Newline as byte)
      && forall j :: t.e <= j < s.e ==> Slot(s, j) != Newline as byte
  {
  }

  /** What a consoleread call ends with. */
  datatype ReadResult = Count(n: int) | Killed | WouldBlock

  /** The result of consoleread, the characters it hands over and where it leaves r. */
  datatype Outcome = Outcome(res: ReadResult, got: nat, r: nat)

  /**
   * consoleread's loop from s with got characters handed over: it stops
   * after n characters, after a '\n' (handed over), at a ^D (kept for the
   * next call when something was read), or when nothing committed is left.
   */
  function Consume(s: Input, n: int, killed: bool, got: nat): Outcome
    requires Inv(s) && s.r + got <= s.w
    decreases s.w - got
  {
    if got >= n then Outcome(Count(got), got, s.r + got)
    else if s.r + got == s.w then Outcome(if killed then Killed else WouldBlock, got, s.r + got)
    else if Slot(s, s.r + got) == CtrlD as byte then Outcome(Count(got), got, if got > 0 then s.r + got else s.r + got + 1)
    else if Slot(s, s.r + got) == Newline as byte then Outcome(Count(got + 1), got + 1, s.r + got + 1)
    else Consume(s, n, killed, got + 1)
  }

  /** What consoleread promises, from any point of its loop on. */
  lemma {:induction false} ConsumeFrom(s: Input, n: int, killed: bool, got: nat)
    requires Inv(s) && s.r + got <= s.w && got <= Max(n, 0)
    requires forall k :: s.r <= k < s.r + got ==> Slot(s, k) != CtrlD as byte && Slot(s, k) != Newline as byte
    ensures var o := Consume(s, n, killed, got);
      got <= o.got <= Max(n, 0) && s.r + o.got <= s.w
      && (forall k :: s.r <= k < s.r + o.got ==> Slot(s, k) != CtrlD as byte)
      && (forall k :: s.r <= k < s.r + o.got - 1 ==> Slot(s, k) != Newline as byte)
      && (o.res.Count? ==> o.res.n == o.got)
      && (o.res.Count? ==>
            (o.got == Max(n, 0) && o.r == s.r + o.got)
            || (0 < o.got && Slot(s, s.r + o.got - 1) == Newline as byte && o.r == s.r + o.got)
            || (s.r + o.got < s.w && Slot(s, s.r + o.got) == CtrlD as byte && o.r == s.r + o.got + (if o.got == 0 then 1 else 0)))
      && (!o.res.Count? ==>
            o.r == s.w == s.r + o.got && o.got < n && (o.res.Killed? <==> killed)
            && (0 < o.got ==> Slot(s, s.r + o.got - 1) != Newline as byte))
    decreases s.w - got
  {
    if got < n && s.r + got < s.w && Slot(s, s.r + got) != CtrlD as byte && Slot(s, s.r + got) != Newline as byte {
      ConsumeFrom(s, n, killed, got + 1);
    }
  }

  /**
   * consoleread: the characters handed over are committed ones, in order,
   * with no ^D among them and a '\n' at most as the last; it stops after n,
   * after a '\n', or before a ^D, which is consumed only when it is the
   * first character; with nothing committed left it returns -1 for a
   * killed caller and would sleep otherwise.
   */
  lemma ReadPromise(s: Input, n: int, killed: bool)
    requires Inv(s)
    ensures var o := Consume(s, n, killed, 0);
      o.got <= Max(n, 0) && s.r + o.got <= s.w
      && (forall k :: s.r <= k < s.r + o.got ==> Slot(s, k) != CtrlD as byte)
      && (forall k :: s.r <= k < s.r + o.got - 1 ==> Slot(s, k) != Newline as byte)
      && (o.res.Count? ==> o.res.n == o.got)
      && (o.res.Count? ==>
            (o.got == Max(n, 0) && o.r == s.r + o.got)
            || (0 < o.got && Slot(s, s.r + o.got - 1) == Newline as byte && o.r == s.r + o.got)
            || (s.r + o.got < s.w && Slot(s, s.r + o.got) == CtrlD as byte && o.r == s.r + o.got + (if o.got == 0 then 1 else 0)))
      && (!o.res.Count? ==>
            o.r == s.w == s.r + o.got && o.got < n && (o.res.Killed? <==> killed)
            && (0 < o.got ==> Slot(s, s.r + o.got - 1) != Newline as byte))
  {
    ConsumeFrom(s, n, killed, 0);
  }

  /** The input structure and the echo of the keys. */
  class Console {
    const buf: array<byte>
    var r: nat
    var w: nat
    var e: nat

    ghost predicate Valid()
      reads this, buf
    {
      Inv(Abs())
    }

    ghost function Abs(): Input
      reads this, buf
    {
      Input(buf[..], r, w, e)
    }

    /** The zeroed input structure. */
    constructor ()
      ensures Valid() && r == 0 && w == 0 && e == 0
    {
      buf := new byte[INPUT_BUF];
      r, w, e := 0, 0, 0;
    }

    /** One pass of consoleintr's switch. */
    method Intr(c: int)
      requires Valid() && c >= 0
      modifies this, buf
      ensures Valid() && Abs() == Key(old(Abs()), c)
    {
      if c == CtrlZ || c == CtrlQ || c == CtrlP {
      } else if c == CtrlU {
        while e != w && buf[(e - 1) % INPUT_BUF] != Newline as byte
          invariant w <= e <= old(e) && buf[..] == old(buf[..]) && r == old(r) && w == old(w)
          invariant KillBack(old(Abs()), e) == KillBack(old(Abs()), old(e))
          decreases e
        {
          e := e - 1;
        }
      } else if c == CtrlH || c == Del {
        if e != w {
          e := e - 1;
        }
      } else if c != 0 && e - r < INPUT_BUF {
        var ch := if c == Return then Newline else c;
        buf[e % INPUT_BUF] := (ch % 256) as byte;
        e := e + 1;
        if ch == Newline || ch == CtrlD || e == r + INPUT_BUF {
          w := e;
        }
      }
    }

    /** consoleintr: every key getc returns before it returns a negative value. */
    method IntrAll(cs: seq<int>)
      requires Valid() && forall k :: 0 <= k < |cs| ==> cs[k] >= 0
      modifies this, buf
      ensures Valid() && Abs() == Keys(old(Abs()), cs)
    {
      var i := 0;
      while i < |cs|
        invariant 0 <= i <= |cs| && Valid()
        invariant Keys(Abs(), cs[i..]) == Keys(old(Abs()), cs)
      {
        assert cs[i..][1..] == cs[i + 1..];
        Intr(cs[i]);
        i := i + 1;
      }
    }

    /**
     * consoleread: committed characters in FIFO order into dst, as Consume
     * says. With nothing committed left the caller either is killed (-1)
     * or would sleep, which ends the model's call there.
     */
    method Read(dst: array<byte>, n: int, killed: bool) returns (res: ReadResult, got: nat)
      requires Valid() && n <= dst.Length && dst != buf
      modifies this, dst
      ensures Valid() && buf[..] == old(buf[..]) && w == old(w) && e == old(e)
      ensures Consume(old(Abs()), n, killed, 0) == Outcome(res, got, r)
      ensures Copied(dst[..], old(dst[..]), old(Abs()), got)
    {
      ghost var s := Abs();
      got := 0;
      while got < n
        invariant Valid() && buf[..] == s.buf && w == s.w && e == s.e
        invariant r == s.r + got <= w
        invariant Consume(s, n, killed, got) == Consume(s, n, killed, 0)
        invariant Copied(dst[..], old(dst[..]), s, got)
      {
        if r == w {
          if killed {
            return Killed, got;
          }
          return WouldBlock, got;
        }
        var c := buf[r % INPUT_BUF];
        assert c == Slot(s, r);
        r := r + 1;
        if c == CtrlD as byte {
          if got > 0 {
            r := r - 1;
          }
          return Count(got), got;
        }
        ghost var d0 := dst[..];
        dst[got] := c;
        CopiedStep(d0, dst[..], old(dst[..]), s, got, c);
        got := got + 1;
        if c == Newline as byte {
          return Count(got), got;
        }
      }
      res := Count(got);
    }
  }

  /** What console printint sends to the screen: '-' only when a sign is asked for and xx is negative, then lower-case digits. */
  function Rendered(xx: Printf.int32, base: nat, sgn: bool): (s: seq<char>)
    requires Base(base)
  {
    (if sgn && xx < 0 then "-" else "") + Digits(Printf.Magnitude(xx, sgn), base, false)
  }

  /**
   * printint: the digits of x least significant first in a local buffer,
   * '-' after them, then each character sent out from the last stored.
   */
  method PrintInt(xx: Printf.int32, base: nat, sgn: bool) returns (out: seq<char>)
    requires Base(base)
    ensures out == Rendered(xx, base, sgn)
  {
    Printf.RenderLength(xx, base, sgn);
    DigitsLengthLower(Printf.Magnitude(xx, sgn), base);
    var local := new char[16];
    var neg := sgn && xx < 0;
    var i := Printf.StoreDigits(Printf.Magnitude(xx, sgn), base, false, local);
    ghost var digitsPart := local[..i];
    if neg {
      local[i] := '-';
      i := i + 1;
      assert local[..i] == digitsPart + ['-'];
      ReverseSnoc(digitsPart, '-');
    }
    out := Emit(local, i);
  }

  /** printint's last loop: consputc(buf[i]) for i from the last stored down to 0. */
  method Emit(local: array<char>, len: nat) returns (out: seq<char>)
    requires len <= local.Length
    ensures out == Reverse(local[..len])
  {
    var i := len;
    out := [];
    while i > 0
      invariant 0 <= i <= len && |out| == len - i
      invariant forall m :: 0 <= m < len - i ==> out[m] == local[len - 1 - m]
    {
      i := i - 1;
      out := out + [local[i]];
    }
    forall m | 0 <= m < len
      ensures out[m] == Reverse(local[..len])[m]
    {
      ReverseAt(local[..len], m);
    }
  }

  /** Lower-case digits are as many as upper-case ones. */
  lemma {:induction false} DigitsLengthLower(x: nat, base: nat)
    requires Base(base)
    ensures |Digits(x, base, false)| == |Digits(x, base, true)|
    decreases x
  {
    DivMod(x, base);
    if x >= base {
      DigitsLengthLower(x / base, base);
    }
  }

  /** Reading the sent characters back gives the value: console digits are the source's digits in lower case. */
  lemma RenderedAgreesWithKernelPrintf(xx: Printf.int32, base: nat, sgn: bool)
    requires Base(base)
    ensures |Rendered(xx, base, sgn)| == |Printf.Render(xx, base, sgn)|
    ensures base == 10 ==> Rendered(xx, base, sgn) == Printf.Render(xx, base, sgn)
  {
    DigitsLengthLower(Printf.Magnitude(xx, sgn), base);
    if base == 10 {
      DecimalCaseFree(Printf.Magnitude(xx, sgn));
    }
  }

  /** Decimal digits do not depend on case. */
  lemma {:induction false} DecimalCaseFree(x: nat)
    ensures Digits(x, 10, false) == Digits(x, 10, true)
    decreases x
  {
    DivMod(x, 10);
    if x >= 10 {
      DecimalCaseFree(x / 10);
    }
  }
}
