/**
 * The /dev/random feeder (user/kexts/krandom.c): a linear congruential
 * generator with Knuth's MMIX multiplier and increment, reduced modulo
 * 2^63. Each iteration of its endless loop draws rnd = last mod 1982 + 1,
 * advances last, writes the eight bytes of rnd least significant first and
 * sleeps for a delay that counts down from 30 to 0. The blessing check,
 * device creation and open are left out; the writes and the sleeps are
 * recorded in two logs.
 */
module Krandom {
  import opened Common

  const M: int := 0x8000_0000_0000_0000
  const A: int := 6364136223846793005
  const C: int := 1442695040888963407
  const SEED: int := 1982

  /** The value drawn from state last. */
  function Rnd(last: uint64): (r: uint64)
    ensures 1 <= r <= SEED
  {
    last % SEED + 1
  }

  /** The next state: the 64-bit product and sum, then reduced modulo m. */
  function NextLast(last: uint64): (n: uint64)
    ensures n < M && n == (A * last + C) % M
  {
    ModOfMod(A * last + C);
    ((A * last + C) % U64) % M
  }

  /** Reducing modulo 2^64 first changes nothing modulo 2^63. */
  lemma ModOfMod(x: nat)
    ensures (x % U64) % M == x % M
  {
    var q := x / U64;
    var r := x % U64;
    var m := r % M;
    var k := 2 * q + r / M;
    assert x == q * U64 + r;
    assert r == (r / M) * M + m;
    assert x == k * M + m;
    ModUnique(x, k, m);
  }

  /** The remainder modulo M is the only one below M. */
  lemma ModUnique(x: nat, k: nat, m: nat)
    requires m < M && x == k * M + m
    ensures x % M == m
  {
  }

  /** The n bytes of v, least significant first: byte k is (char)(v >> 8k). */
  function LeBytes(v: nat, n: nat): (r: seq<byte>)
    ensures |r| == n
  {
    if n == 0 then [] else [v % 256] + LeBytes(v / 256, n - 1)
  }

  /** The number whose little-endian bytes are s. */
  function LeValue(s: seq<byte>): nat
  {
    if s == [] then 0 else s[0] + 256 * LeValue(s[1..])
  }

  /** The bytes written are rnd in little-endian order: reading them back gives rnd. */
  lemma {:induction false} LeBytesRoundTrip(v: nat, n: nat, bound: nat)
    requires bound == Pow256(n) && v < bound
    ensures LeValue(LeBytes(v, n)) == v
  {
    if n > 0 {
      assert v / 256 < Pow256(n - 1);
      LeBytesRoundTrip(v / 256, n - 1, Pow256(n - 1));
      assert LeBytes(v, n)[1..] == LeBytes(v / 256, n - 1);
    }
  }

  lemma Pow256Eight()
    ensures Pow256(8) == U64
  {
    assert Pow256(2) == 0x1_0000;
    assert Pow256(4) == 0x1_0000_0000;
    assert Pow256(6) == 0x1_0000_0000_0000;
  }

  function Pow256(n: nat): (p: nat)
    ensures p >= 1
  {
    if n == 0 then 1 else 256 * Pow256(n - 1)
  }

  /** The eight bytes written for state last read back as its value, and all but the two lowest are zero. */
  lemma RndBytesReadBack(last: uint64)
    ensures LeValue(LeBytes(Rnd(last), 8)) == Rnd(last)
    ensures forall k :: 2 <= k < 8 ==> LeBytes(Rnd(last), 8)[k] == 0
  {
    var r := Rnd(last);
    Pow256Eight();
    LeBytesRoundTrip(r, 8, Pow256(8));
    assert LeBytes(r, 8) == [r % 256, r / 256 % 256] + LeBytes(r / 256 / 256, 6);
    assert r / 256 / 256 == 0;
    assert LeBytes(0, 6) == [0, 0, 0, 0, 0, 0];
  }

  /** The delay after k iterations from d: one less per iteration, then 0. */
  function Countdown(d: nat, k: nat): nat
  {
    if k == 0 then d else Countdown(if d > 0 then d - 1 else 0, k - 1)
  }

  lemma {:induction false} CountdownFrom(d: nat, k: nat)
    ensures Countdown(d, k) == Max(d - k, 0)
  {
    if k > 0 {
      CountdownFrom(if d > 0 then d - 1 else 0, k - 1);
    }
  }

  /** The state after k draws from last. */
  function LastAfter(last: uint64, k: nat): uint64
    decreases k
  {
    if k == 0 then last else LastAfter(NextLast(last), k - 1)
  }

  /** The bytes k iterations from state last write: eight per draw, in order. */
  function Written(last: uint64, k: nat): (w: seq<byte>)
    ensures |w| == 8 * k
    decreases k
  {
    if k == 0 then [] else LeBytes(Rnd(last), 8) + Written(NextLast(last), k - 1)
  }

  /** One more iteration appends the bytes of the next draw. */
  lemma {:induction false} WrittenSnoc(last: uint64, k: nat)
    ensures LastAfter(last, k + 1) == NextLast(LastAfter(last, k))
    ensures Written(last, k + 1) == Written(last, k) + LeBytes(Rnd(LastAfter(last, k)), 8)
    decreases k
  {
    if k > 0 {
      var n := NextLast(last);
      WrittenSnoc(n, k - 1);
      assert LastAfter(last, k) == LastAfter(n, k - 1);
      ConcatAssoc(LeBytes(Rnd(last), 8), Written(n, k - 1), LeBytes(Rnd(LastAfter(n, k - 1)), 8));
    }
  }

  /** Bytes 8i to 8i + 8 of what k iterations write read back as the i-th value drawn. */
  lemma {:induction false} WrittenGroups(last: uint64, k: nat, i: nat)
    requires i < k
    ensures Written(last, k)[8 * i..8 * i + 8] == LeBytes(Rnd(LastAfter(last, i)), 8)
    ensures LeValue(Written(last, k)[8 * i..8 * i + 8]) == Rnd(LastAfter(last, i))
    decreases i
  {
    if i == 0 {
      assert Written(last, k)[..8] == LeBytes(Rnd(last), 8);
    } else {
      var n := NextLast(last);
      WrittenGroups(n, k - 1, i - 1);
      SliceOfConcat(LeBytes(Rnd(last), 8), Written(n, k - 1), 8 * i, 8 * i + 8);
      assert LastAfter(last, i) == LastAfter(n, i - 1);
    }
    RndBytesReadBack(LastAfter(last, i));
  }

  class Generator {
    var last: uint64
    var delay: byte
    /** The bytes written to /dev/random, in order. */
    var written: seq<byte>
    /** The arguments of the sleep calls, in order. */
    var slept: seq<nat>

    constructor ()
      ensures last == 1 && delay == 30 && written == [] && slept == []
    {
      last := 1;
      delay := 30;
      written := [];
      slept := [];
    }

    /** One pass of the loop body. */
    method Iterate()
      modifies this
      ensures last == NextLast(old(last))
      ensures written == old(written) + LeBytes(Rnd(old(last)), 8)
      ensures delay == Countdown(old(delay), 1)
      ensures slept == old(slept) + if old(delay) > 0 then [old(delay) as nat] else []
    {
      var seed := SEED;
      var rnd := last % seed + 1;
      last := NextLast(last);
      var str := Serialise(rnd);
      written := written + str[..];
      if delay > 0 {
        slept := slept + [delay as nat];
        delay := delay - 1;
      }
    }

    /** k passes of the loop: the bytes of k draws are written, and the delay has counted down by k, stopping at 0. */
    method IterateFor(k: nat)
      modifies this
      ensures delay == Max(old(delay) - k, 0)
      ensures written == old(written) + Written(old(last), k) && last == LastAfter(old(last), k)
    {
      var i := 0;
      CountdownFrom(delay, 0);
      while i < k
        invariant 0 <= i <= k
        invariant delay == Countdown(old(delay), i)
        invariant written == old(written) + Written(old(last), i) && last == LastAfter(old(last), i)
      {
        CountdownStep(old(delay), i);
        WrittenSnoc(old(last), i);
        Iterate();
        i := i + 1;
      }
      CountdownFrom(old(delay), k);
    }
  }

  /** Fills str[0..8) with the bytes of rnd, least significant first. */
  method Serialise(rnd: uint64) returns (str: array<byte>)
    ensures fresh(str) && str[..] == LeBytes(rnd, 8)
  {
    str := new byte[8];
    str[0] := rnd % 256;
    str[1] := (rnd / 0x100) % 256;
    str[2] := (rnd / 0x1_0000) % 256;
    str[3] := (rnd / 0x100_0000) % 256;
    str[4] := (rnd / 0x1_0000_0000) % 256;
    str[5] := (rnd / 0x100_0000_0000) % 256;
    str[6] := (rnd / 0x1_0000_0000_0000) % 256;
    str[7] := (rnd / 0x100_0000_0000_0000) % 256;
    SerialisedBytes(rnd, str[..]);
  }

  lemma {:induction false} CountdownStep(d: nat, i: nat)
    ensures Countdown(Countdown(d, i), 1) == Countdown(d, i + 1)
  {
    if i > 0 {
      CountdownStep(if d > 0 then d - 1 else 0, i - 1);
    }
  }

  /** The eight shifted-and-truncated bytes of the loop body are LeBytes(rnd, 8). */
  lemma SerialisedBytes(rnd: nat, str: seq<byte>)
    requires |str| == 8
    requires str[0] == rnd % 256 && str[1] == (rnd / 0x100) % 256
    requires str[2] == (rnd / 0x1_0000) % 256 && str[3] == (rnd / 0x100_0000) % 256
    requires str[4] == (rnd / 0x1_0000_0000) % 256 && str[5] == (rnd / 0x100_0000_0000) % 256
    requires str[6] == (rnd / 0x1_0000_0000_0000) % 256 && str[7] == (rnd / 0x100_0000_0000_0000) % 256
    ensures str == LeBytes(rnd, 8)
  {
    var r1 := rnd / 256;
    var r2 := r1 / 256;
    var r3 := r2 / 256;
    var r4 := r3 / 256;
    var r5 := r4 / 256;
    var r6 := r5 / 256;
    var r7 := r6 / 256;
    assert r2 == rnd / 0x1_0000;
    assert r3 == rnd / 0x100_0000;
    assert r4 == rnd / 0x1_0000_0000;
    assert r5 == rnd / 0x100_0000_0000;
    assert r6 == rnd / 0x1_0000_0000_0000;
    assert r7 == rnd / 0x100_0000_0000_0000;
    assert LeBytes(r7, 1) == [r7 % 256];
    assert LeBytes(rnd, 8) == [rnd % 256, r1 % 256, r2 % 256, r3 % 256, r4 % 256, r5 % 256, r6 % 256, r7 % 256];
  }
}
