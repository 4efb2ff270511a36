/**
 * The Internet checksum that kernel/ip.c, icmp.c, udp.c and tcp.c compute
 * with cksum16 (its source is not part of this model): the ones'-complement
 * sum of the 16-bit words of the message and an initial value, folded to
 * 16 bits and complemented, as section 2 of RFC 1071 defines it. Words are
 * read in network (big-endian) order, a trailing odd byte as the high half
 * of a last word; RFC 1071 section 2(B) shows the result does not depend
 * on the byte order the sum is taken in.
 */
module Checksum {
  import opened Common

  /** The sum of the 16-bit words of s from byte i on. */
  function WordSum(s: seq<byte>, i: nat): nat
    decreases |s| - i
  {
    if i >= |s| then 0
    else if i + 1 == |s| then s[i] as int * 256
    else s[i] as int * 256 + s[i + 1] + WordSum(s, i + 2)
  }

  /** The end-around-carry fold: carries out of bit 15 are added back in until none is left. */
  function Fold(x: nat): (r: nat)
    ensures r <= 0xffff
    ensures r % 0xffff == x % 0xffff
    ensures r == 0 <==> x == 0
    decreases x
  {
    if x <= 0xffff then x
    else
      var q, m := x / 0x1_0000, x % 0x1_0000;
      assert x == (q + m) + 0xffff * q;
      ShiftMod(q + m, q);
      Fold(q + m)
  }

  /** Adding a multiple of 0xffff keeps the remainder modulo 0xffff. */
  lemma ShiftMod(a: nat, k: nat)
    ensures (a + 0xffff * k) % 0xffff == a % 0xffff
  {
    MultipleMod(k);
  }

  /** cksum16(s, |s|, init): the complement of the folded sum. */
  function Cksum16(s: seq<byte>, init: nat): (c: uint16)
  {
    0xffff - Fold(WordSum(s, 0) + init)
  }

  /** Writing the 16-bit value c into the zero word at an even offset o adds c to the word sum. */
  lemma {:induction false} WordSumInsert(s: seq<byte>, i: nat, o: nat, c: uint16)
    requires i <= o && (o - i) % 2 == 0 && o + 1 < |s| && s[o] == 0 && s[o + 1] == 0
    ensures WordSum(s[o := c / 256][o + 1 := c % 256], i) == WordSum(s, i) + c
    decreases o - i
  {
    var t := s[o := c / 256][o + 1 := c % 256];
    if i < o {
      assert t[i] == s[i] && t[i + 1] == s[i + 1];
      WordSumInsert(s, i + 2, o, c);
    } else {
      assert WordSum(t, i + 2) == WordSum(s, i + 2) by {
        WordSumSameFrom(s, t, i + 2);
      }
    }
  }

  /** Two messages that agree from byte i on have the same word sum from there. */
  lemma {:induction false} WordSumSameFrom(s: seq<byte>, t: seq<byte>, i: nat)
    requires |s| == |t| && forall k :: i <= k < |s| ==> s[k] == t[k]
    ensures WordSum(s, i) == WordSum(t, i)
    decreases |s| - i
  {
    if i + 1 < |s| {
      WordSumSameFrom(s, t, i + 2);
    }
  }

  /**
   * The property the receivers rely on: a message whose checksum word
   * (at an even offset, zero while the sum was taken) is given the value
   * cksum16 computed sums, with the same initial value, to a checksum of 0.
   */
  lemma CompletedChecksumVerifies(s: seq<byte>, o: nat, init: nat)
    requires o % 2 == 0 && o + 1 < |s| && s[o] == 0 && s[o + 1] == 0
    ensures var c := Cksum16(s, init);
      Cksum16(s[o := c / 256][o + 1 := c % 256], init) == 0
  {
    var c := Cksum16(s, init);
    var t := s[o := c / 256][o + 1 := c % 256];
    WordSumInsert(s, 0, o, c);
    FoldOfComplement(WordSum(s, 0) + init);
  }

  /** x plus the complement of its fold folds to 0xffff, the ones'-complement zero. */
  lemma FoldOfComplement(x: nat)
    ensures Fold(x + 0xffff - Fold(x)) == 0xffff
  {
    var f := Fold(x);
    var y := x + 0xffff - f;
    assert x == 0xffff * (x / 0xffff) + x % 0xffff;
    assert f == 0xffff * (f / 0xffff) + f % 0xffff;
    assert y == 0xffff * (x / 0xffff - f / 0xffff + 1);
    MultipleMod(x / 0xffff - f / 0xffff + 1);
    assert y > 0;
  }

  lemma MultipleMod(m: int)
    ensures (0xffff * m) % 0xffff == 0
  {
  }
}
