/**
 * The character classes of ulib/unix/ctype.c (kernel/klib.c carries an
 * identical copy of both functions). The argument is a C int; isspace
 * truncates it to a char first, isdigit does not.
 */
module Ctype {

  /** The byte a C int keeps when it is converted to char (two's complement). */
  function ToChar(c: int): (b: int)
    ensures 0 <= b < 256 && (c - b) % 256 == 0
  {
    c % 256
  }

  /** The six ASCII white-space codes: space, tab, newline, vertical tab (11), form feed (12), carriage return. */
  predicate WhiteByte(b: int)
  {
    b == 32 || (9 <= b <= 13)
  }

  function IsSpace(c: int): (r: int)
    ensures r == 0 || r == 1
    ensures r == 1 <==> WhiteByte(ToChar(c))
  {
    var chr := ToChar(c);
    if chr == ' ' as int || chr == '\t' as int || chr == 11 || chr == '\n' as int
       || chr == 12 || chr == '\r' as int then 1 else 0
  }

  function IsDigit(c: int): (r: int)
    ensures r == 0 || r == 1
    ensures r == 1 <==> '0' as int <= c <= '9' as int
  {
    if c >= 48 && c <= 57 then 1 else 0
  }

  /** isspace sees only the low byte: values 256 apart are classified alike. */
  lemma IsSpaceIgnoresHighBits(c: int, k: int)
    ensures IsSpace(c + 256 * k) == IsSpace(c)
  {
    assert ToChar(c + 256 * k) == ToChar(c);
  }

  /** isdigit does not truncate: 256 + '0' is not a digit although its low byte is. */
  lemma IsDigitDoesNotTruncate()
    ensures IsDigit(256 + 48) == 0 && IsDigit(48) == 1
  {
  }

  /** No value is both white space and a digit. */
  lemma SpaceAndDigitDisjoint(c: int)
    ensures !(IsSpace(c) == 1 && IsDigit(c) == 1)
  {
  }
}
