/**
 * The user-space formatted output of ulib/unix/stdio.c. Its printint and
 * vprintf are the kernel's, character for character, and are the ones of
 * module Printf; fopen, fgetc and the other stream functions are I/O.
 */
module Stdio {
  import Printf

  /** snprintf: vprintf in buffer mode with limit n into a buffer of at least n characters. */
  method Snprintf(s: array<char>, n: nat, fmt: seq<char>, args: seq<Printf.Arg>) returns (len: nat, outside: bool, overrun: bool)
    requires '\0' !in fmt && n <= s.Length
    modifies s
    ensures len == |Printf.Run(fmt, args, n, false).out|
    ensures s[..] == Printf.AsWrittenBuffer(old(s[..]), n, Printf.Run(fmt, args, n, false).out)
    ensures outside == (Printf.TerminatorAt(len, n) >= s.Length)
    ensures overrun == Printf.Overruns(fmt, args, n)
  {
    len, outside, overrun := Printf.VprintfBuffer(s, n, fmt, args);
  }
}
