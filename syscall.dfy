/**
 * System call arguments and dispatch (kernel/syscall.c). The current
 * process is the memory it can address (addresses below sz), its trap
 * frame and the number of its last system call. Addresses are 64-bit
 * (uintp), so every bound check is written with its wrap-around at 2^64.
 * include/syscall.h is not part of this model: the handler table is
 * given as the set of numbers that have an entry. The handlers themselves
 * are calls this model cannot see: their result is a parameter.
 */
module Syscall {
  import opened Common

  type int32 = x: int | -0x8000_0000 <= x < 0x8000_0000

  /** The int32 whose two's complement is the low 32 bits of v. */
  function Int32Of(v: int): (r: int32)
    ensures (r - v) % U32 == 0
  {
    var u := v % U32;
    if u < 0x8000_0000 then u else u - U32
  }

  /** What a fetch gives: the value read, or the -1 of a failed check. */
  datatype Fetch = Fetched(value: int) | Refused

  /** fetchint: the int at addr, refused when addr or addr + 4 (in 64 bits) lies past sz. */
  function FetchInt(mem: seq<byte>, sz: uint64, addr: uint64): (f: Fetch)
  {
    if addr >= sz || (addr + 4) % U64 > sz then Refused else Fetched(Int32Of(LeAt(mem, addr, 4)))
  }

  /** fetchuintp: the same with the 8 bytes of a uintp. */
  function FetchUintp(mem: seq<byte>, sz: uint64, addr: uint64): (f: Fetch)
  {
    if addr >= sz || (addr + 8) % U64 > sz then Refused else Fetched(LeAt(mem, addr, 8))
  }

  /**
   * For every process whose size leaves room for the sum (every user
   * process lies below KERNBASE), fetchint succeeds exactly when the four
   * bytes lie below sz, and reads them.
   */
  lemma FetchIntBounds(mem: seq<byte>, sz: uint64, addr: uint64)
    requires sz <= U64 - 4
    ensures FetchInt(mem, sz, addr).Fetched? <==> addr + 4 <= sz
    ensures FetchInt(mem, sz, addr).Fetched? ==> FetchInt(mem, sz, addr).value == Int32Of(LeAt(mem, addr, 4))
  {
  }

  /** fetchuintp succeeds exactly when the eight bytes lie below sz. */
  lemma FetchUintpBounds(mem: seq<byte>, sz: uint64, addr: uint64)
    requires sz <= U64 - 8
    ensures FetchUintp(mem, sz, addr).Fetched? <==> addr + 8 <= sz
  {
  }

  /** Where the first NUL at or after addr and below sz lies, if any. */
  function NulFrom(mem: seq<byte>, addr: nat, sz: nat): (k: Option<nat>)
    ensures k.Some? ==>
              addr <= k.value < sz && ByteAt(mem, k.value) == 0 && forall j :: addr <= j < k.value ==> ByteAt(mem, j) != 0
    ensures k.None? ==> forall j :: addr <= j < sz ==> ByteAt(mem, j) != 0
    decreases sz - addr
  {
    if addr >= sz then None
    else if ByteAt(mem, addr) == 0 then Some(addr)
    else NulFrom(mem, addr + 1, sz)
  }

  /**
   * fetchstr: -1 when addr lies at or past sz; otherwise the length of
   * the string at addr, as the int the pointer difference is returned
   * as, or -1 when no NUL lies below sz.
   */
  method FetchStr(mem: seq<byte>, sz: uint64, addr: uint64) returns (r: int32)
    ensures addr >= sz ==> r == -1
    ensures addr < sz ==> var k := NulFrom(mem, addr, sz);
      r == (if k.Some? then Int32Of(k.value - addr) else -1)
  {
    if addr >= sz {
      return -1;
    }
    var s: nat := addr;
    while s < sz
      invariant addr <= s <= sz
      invariant NulFrom(mem, s, sz) == NulFrom(mem, addr, sz)
    {
      if ByteAt(mem, s) == 0 {
        return Int32Of(s - addr);
      }
      s := s + 1;
    }
    return -1;
  }

  /** fetchstr finds the string exactly when a NUL follows addr below sz; none of its bytes is NUL. */
  lemma FetchStrFinds(mem: seq<byte>, sz: uint64, addr: uint64)
    requires addr < sz
    ensures var k := NulFrom(mem, addr, sz);
      (k.Some? <==> exists j :: addr <= j < sz && ByteAt(mem, j) == 0)
      && (k.Some? ==> forall j :: addr <= j < k.value ==> ByteAt(mem, j) != 0)
  {
    var k := NulFrom(mem, addr, sz);
    if k.Some? {
      assert addr <= k.value < sz && ByteAt(mem, k.value) == 0;
    }
  }

  /** The argument registers of the trap frame, and rax, where the number comes in and the result goes out. */
  datatype TrapFrame = TrapFrame(rdi: uint64, rsi: uint64, rdx: uint64, rcx: uint64, r8: uint64, r9: uint64, eax: uint64)

  /** fetcharg: argument n in the x86-64 calling convention's order; any other n panics (None). */
  function FetchArg(tf: TrapFrame, n: int): (r: Option<uint64>)
    ensures r.Some? <==> 0 <= n < 6
  {
    if n == 0 then Some(tf.rdi)
    else if n == 1 then Some(tf.rsi)
    else if n == 2 then Some(tf.rdx)
    else if n == 3 then Some(tf.rcx)
    else if n == 4 then Some(tf.r8)
    else if n == 5 then Some(tf.r9)
    else None
  }

  /** The registers argument 0..5 come in, in order. */
  lemma ArgumentRegisters(tf: TrapFrame)
    ensures [FetchArg(tf, 0), FetchArg(tf, 1), FetchArg(tf, 2), FetchArg(tf, 3), FetchArg(tf, 4), FetchArg(tf, 5)]
      == [Some(tf.rdi), Some(tf.rsi), Some(tf.rdx), Some(tf.rcx), Some(tf.r8), Some(tf.r9)]
  {
  }

  /** What argptr gives: the pointer, the -1 of a failed check, or the panic of fetcharg. */
  datatype Arg = Pointer(p: uint64) | Rejected | ArgPanic

  /**
   * argptr as written: the int size is converted to 64 bits and added in
   * 64 bits, so a negative size is a subtraction.
   */
  function ArgPtr(tf: TrapFrame, sz: uint64, n: int, size: int32): (a: Arg)
  {
    var i := FetchArg(tf, n);
    if i.None? then ArgPanic
    else if i.value >= sz || (i.value + size % U64) % U64 > sz then Rejected
    else Pointer(i.value)
  }

  /**
   * As written: for a process below 2^63 bytes, argptr accepts exactly
   * the blocks with i < sz and 0 <= i + size <= sz, which includes a
   * negative size as long as i + size does not fall below 0.
   */
  lemma ArgPtrBounds(tf: TrapFrame, sz: uint64, n: int, size: int32)
    requires 0 <= n < 6 && sz < 0x8000_0000_0000_0000
    ensures var i := FetchArg(tf, n).value;
      ArgPtr(tf, sz, n, size).Pointer? <==> i < sz && 0 <= i + size <= sz
    ensures ArgPtr(tf, sz, n, size).Pointer? ==> ArgPtr(tf, sz, n, size).p == FetchArg(tf, n).value
  {
    var i := FetchArg(tf, n).value;
    if i < sz {
      if size >= 0 {
        assert (i + size % U64) % U64 == i + size;
      } else if i + size >= 0 {
        assert (i + size % U64) % U64 == i + size;
      } else {
        assert (i + size % U64) % U64 == i + size + U64;
      }
    }
  }

  /** As written, a block of size -1 just inside the process is accepted. */
  lemma ArgPtrAcceptsNegativeSize(tf: TrapFrame)
    requires tf.rdi == 16
    ensures ArgPtr(tf, 4096, 0, -1) == Pointer(16)
  {
  }

  /** Corrected argptr: a negative size is refused as well. */
  function ArgPtrIntended(tf: TrapFrame, sz: uint64, n: int, size: int32): (a: Arg)
  {
    var i := FetchArg(tf, n);
    if i.None? then ArgPanic
    else if size < 0 || i.value >= sz || (i.value + size % U64) % U64 > sz then Rejected
    else Pointer(i.value)
  }

  /** The corrected argptr accepts exactly the blocks of size >= 0 that lie within the process. */
  lemma ArgPtrIntendedBounds(tf: TrapFrame, sz: uint64, n: int, size: int32)
    requires 0 <= n < 6 && sz < 0x8000_0000_0000_0000
    ensures var i := FetchArg(tf, n).value;
      ArgPtrIntended(tf, sz, n, size).Pointer? <==> 0 <= size && i < sz && i + size <= sz
  {
    var i := FetchArg(tf, n).value;
    if i < sz && size >= 0 {
      assert (i + size % U64) % U64 == i + size;
    }
  }

  /** The current process as syscall sees it. */
  class Process {
    var tf: TrapFrame
    var lastsyscall: int32

    constructor (frame: TrapFrame)
      ensures tf == frame && lastsyscall == 0
    {
      tf := frame;
      lastsyscall := 0;
    }

    /**
     * syscall: the number is the int in rax; a number 0 < num < |table|
     * whose table entry is set is recorded in lastsyscall and its
     * handler's result (result) goes to rax; any other number puts -1 in
     * rax and leaves lastsyscall alone. Returns whether a handler ran.
     */
    method Dispatch(table: seq<bool>, result: int32) returns (called: bool)
      modifies this
      ensures var num := Int32Of(old(tf).eax);
        called == (0 < num < |table| && table[num])
      ensures called ==> lastsyscall == Int32Of(old(tf).eax) && tf == old(tf).(eax := result % U64)
      ensures !called ==> lastsyscall == old(lastsyscall) && tf == old(tf).(eax := U64 - 1)
      ensures Int32Of(tf.eax) == (if called then result else -1)
    {
      var num := Int32Of(tf.eax);
      if 0 < num < |table| && table[num] {
        lastsyscall := num;
        tf := tf.(eax := result % U64);
        Int32OfRoundTrip(result);
        called := true;
      } else {
        tf := tf.(eax := U64 - 1);
        called := false;
      }
    }
  }

  /** An int32 stored in 64 bits reads back as itself. */
  lemma Int32OfRoundTrip(v: int32)
    ensures Int32Of(v % U64) == v
  {
    assert (v % U64) % U32 == v % U32;
  }
}
