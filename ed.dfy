/**
 * The line editor of user/ed/ed.c: its address parser, its command
 * parser over one input line, the line buffer and the state updates of
 * its command loop. The doubly linked list of lines is a sequence that
 * the buffer's methods reassign; the lines typed after 'i' and whether
 * the output file of 'w' opens are parameters, and printing is left out.
 * The strtol it calls is the ISO C one (CText.Strtol).
 */
module Ed {
  import opened Common
  import opened Ctype
  import opened Numerals
  import opened CText
  import CString

  datatype Err =
    | ENone | EBadAddr | EBadCmdSuffix | EUnexpCmdSuffix | EUnexpAddr
    | ECmd | EInput | ENoFn | EBadOf | EBufModified

  /** buf_err_str: the message printed for an error code. */
  function ErrStr(e: Err): (msg: seq<char>)
    ensures |msg| > 0
  {
    match e
    case ENone => "No error"
    case EBadAddr => "Invalid address"
    case EBadCmdSuffix => "Invalid command suffix"
    case EUnexpCmdSuffix => "Unexpected command suffix"
    case EUnexpAddr => "Unexpected address"
    case ECmd => "Unknown command"
    case EInput => "Cannot open input file"
    case ENoFn => "No current filename"
    case EBadOf => "Cannot open output file"
    case EBufModified => "Warning: buffer modified"
  }

  /** Every error code has a message of its own. */
  lemma ErrStrDistinct(e1: Err, e2: Err)
    ensures e1 != e2 ==> ErrStr(e1) != ErrStr(e2)
  {
  }

  /** A parsed command: its letter, its two addresses, whether an address was given, and the file name of 'w'. */
  datatype Cmd = Cmd(cmd: char, a: int, b: int, addrGiven: bool, fname: Option<seq<char>>)

  /** A line number read by parse_lineno and the position after it; end is the start when there is no address. */
  datatype Lineno = Lineno(n: int, end: nat)

  /**
   * parse_lineno at position i: a number (negative ones count back from
   * the current line), '.' for the current line or '$' for the last.
   */
  function ParseLineno(s: seq<char>, i: nat, cur: int, nlines: int): (r: Lineno)
    ensures r.end == i <==>
      !(IsDigitIn(At(s, i), 10) || At(s, i) == '.' || At(s, i) == '$'
        || (At(s, i) == '-' && IsDigitIn(At(s, i + 1), 10)))
    ensures r.end == i + 1 && At(s, i) == '.' ==> r.n == cur
    ensures r.end == i + 1 && At(s, i) == '$' ==> r.n == nlines
  {
    var c := At(s, i);
    if c != '-' && IsDigit(c as int) != 1 && c != '.' && c != '$' then
      assert !IsDigitIn(c, 10);
      Lineno(0, i)
    else
      assert IsSpace(c as int) == 0;
      assert c == '-' ==> (DigitEnd(s, i + 1, 10) != i + 1 <==> IsDigitIn(At(s, i + 1), 10));
      var v := Strtol(s, i, 10);
      if v.end != i then Lineno(if v.value < 0 then cur + v.value else v.value, v.end)
      else if c == '.' then Lineno(cur, i + 1)
      else if c == '$' then Lineno(nlines, i + 1)
      else Lineno(cur, i)
  }

  /** Decimal digits of x from position i to e, followed by a non-digit, are the absolute line x. */
  lemma LinenoAbsolute(s: seq<char>, i: nat, x: nat, cur: int, nlines: int, e: nat)
    requires e == i + |Digits(x, 10, true)|
    requires e <= |s| && s[i..e] == Digits(x, 10, true) && !IsDigitIn(At(s, e), 10)
    ensures ParseLineno(s, i, cur, nlines) == Lineno(x, e)
  {
    StrtolReadsAt(s, i, x, 10, e);
    assert At(s, i) == Digits(x, 10, true)[0];
    assert e != i;
    assert ParseLineno(s, i, cur, nlines).n == x;
    assert ParseLineno(s, i, cur, nlines).end == e;
  }

  /** "-x" up to e with x > 0 is the line x before the current one; "-0" is line 0. */
  lemma LinenoRelative(s: seq<char>, i: nat, x: nat, cur: int, nlines: int, e: nat)
    requires e == i + 1 + |Digits(x, 10, true)|
    requires e <= |s| && s[i] == '-' && s[i + 1..e] == Digits(x, 10, true) && !IsDigitIn(At(s, e), 10)
    ensures ParseLineno(s, i, cur, nlines) == Lineno(if x > 0 then cur - x else 0, e)
  {
    StrtolReadsNegativeAt(s, i, x, 10, e);
    assert ParseLineno(s, i, cur, nlines).n == (if x > 0 then cur - x else 0);
    assert ParseLineno(s, i, cur, nlines).end == e;
  }

  /** The outcome of parse_command: an error code and the command, or the failed assertion on a "w " line without newline. */
  datatype Parsed = Parsed(err: Err, cmd: Cmd) | AssertFailed

  /**
   * parse_command over one line of input (None at end of input). prior
   * is the command record of the previous call: parse_command resets b,
   * addr_given and fname only, so the other fields keep their values on
   * the paths that do not assign them.
   */
  function ParseCommand(line: Option<seq<char>>, prior: Cmd, cur: int, nlines: int): (p: Parsed)
    ensures line.None? ==> p == Parsed(ENone, prior.(cmd := 'q', b := 0, addrGiven := false, fname := None))
  {
    var c0 := prior.(b := 0, addrGiven := false, fname := None);
    if line.None? then Parsed(ENone, c0.(cmd := 'q'))
    else
      var s := line.value;
      if At(s, 0) == ' ' then Parsed(EBadAddr, c0)
      else if At(s, 0) == 'w' then
        var c1 := c0.(cmd := 'w');
        if At(s, 1) != ' ' && At(s, 1) != '\n' then Parsed(EUnexpCmdSuffix, c1)
        else if At(s, 1) == ' ' && At(s, 2) != '\n' then
          var rest := UpToNul(s[2..]);
          if |rest| == 0 || rest[|rest| - 1] != '\n' then AssertFailed
          else Parsed(ENone, c1.(fname := Some(rest[..|rest| - 1])))
        else Parsed(ENone, c1)
      else ParseAddressed(s, c0, cur, nlines)
  }

  /** The part of parse_command after the checks for a leading space and for 'w': addresses, then the command letter. */
  function ParseAddressed(s: seq<char>, c0: Cmd, cur: int, nlines: int): (p: Parsed)
    ensures p.Parsed?
  {
    var haveComma := ',' in UpToNul(s);
    var x := ParseLineno(s, 0, cur, nlines);
    var c1 := c0.(a := x.n);
    if x.end != 0 then
      if At(s, x.end) == ',' then
        var y := ParseLineno(s, x.end + 1, cur, nlines);
        var c2 := c1.(b := y.n);
        if y.end == x.end + 1 then Parsed(EBadAddr, c2)
        else Finish(s, y.end, c2.(addrGiven := true))
      else if haveComma then Parsed(EBadAddr, c1)
      else Finish(s, x.end, c1.(b := x.n, addrGiven := true))
    else if haveComma then Parsed(EBadAddr, c1)
    else Finish(s, 0, c1)
  }

  /** The command letter at i, and E_BAD_CMD_SUFFIX unless the line ends right after it. */
  function Finish(s: seq<char>, i: nat, c: Cmd): (p: Parsed)
    ensures p.Parsed? && p.cmd == c.(cmd := At(s, i))
    ensures p.err == ENone <==> At(s, i + 1) == '\0' || At(s, i + 1) == '\n'
    ensures p.err != ENone ==> p.err == EBadCmdSuffix
  {
    Parsed(if At(s, i + 1) != '\0' && At(s, i + 1) != '\n' then EBadCmdSuffix else ENone, c.(cmd := At(s, i)))
  }

  predicate NotInLine(c: char, s: seq<char>)
  {
    forall k :: 0 <= k < |s| ==> s[k] != c
  }

  lemma NoCommaInString(s: seq<char>)
    requires NotInLine(',', s)
    ensures ',' !in UpToNul(s)
  {
    var u := UpToNul(s);
    forall k | 0 <= k < |u| ensures u[k] != ',' {
      assert u[k] == s[k];
    }
  }

  /** A line starting with a digit is parsed by its addresses and command letter. */
  lemma StartsAddressed(s: seq<char>, prior: Cmd, cur: int, nlines: int)
    requires IsDigitIn(At(s, 0), 10)
    ensures ParseCommand(Some(s), prior, cur, nlines)
         == ParseAddressed(s, prior.(b := 0, addrGiven := false, fname := None), cur, nlines)
  {
  }

  /** Two addresses around a comma: both are recorded and the letter after the second is the command. */
  lemma AddressedRange(s: seq<char>, c0: Cmd, cur: int, nlines: int, x: int, ex: nat, q: nat, y: int, ey: nat)
    requires ParseLineno(s, 0, cur, nlines) == Lineno(x, ex) && ex != 0 && At(s, ex) == ','
    requires q == ex + 1 && ParseLineno(s, q, cur, nlines) == Lineno(y, ey) && ey != q
    ensures ParseAddressed(s, c0, cur, nlines) == Finish(s, ey, c0.(a := x, b := y, addrGiven := true))
  {
  }

  /** One address and no comma in the line: both addresses are the one given. */
  lemma AddressedSingle(s: seq<char>, c0: Cmd, cur: int, nlines: int, x: int, ex: nat)
    requires ParseLineno(s, 0, cur, nlines) == Lineno(x, ex) && ex != 0 && At(s, ex) != ','
    requires ',' !in UpToNul(s)
    ensures ParseAddressed(s, c0, cur, nlines) == Finish(s, ex, c0.(a := x, b := x, addrGiven := true))
  {
  }

  /** Where the parts of "x,y" + [c, '\n'] sit. */
  lemma RangeLayout(dx: seq<char>, dy: seq<char>, c: char, s: seq<char>, m: nat, q: nat, e: nat)
    requires s == dx + "," + dy + [c, '\n'] && m == |dx| && q == m + 1 && e == q + |dy|
    ensures |s| == e + 2 && s[0..m] == dx && At(s, m) == ',' && s[q..e] == dy && At(s, e) == c && At(s, e + 1) == '\n'
    ensures |dx| > 0 ==> At(s, 0) == dx[0]
  {
    assert s[0..m] == dx;
    assert s[q..e] == dy;
  }

  /** "x,y" followed by a command letter and a newline sets both addresses. */
  lemma ParseRange(x: nat, y: nat, c: char, prior: Cmd, cur: int, nlines: int)
    requires !IsDigitIn(c, 10)
    ensures ParseCommand(Some(Digits(x, 10, true) + "," + Digits(y, 10, true) + [c, '\n']), prior, cur, nlines)
         == Parsed(ENone, Cmd(c, x, y, true, None))
  {
    var dx := Digits(x, 10, true);
    var dy := Digits(y, 10, true);
    var s := dx + "," + dy + [c, '\n'];
    var m := |dx|;
    var q := m + 1;
    var e := q + |dy|;
    RangeLayout(dx, dy, c, s, m, q, e);
    StartsAddressed(s, prior, cur, nlines);
    LinenoAbsolute(s, 0, x, cur, nlines, m);
    LinenoAbsolute(s, q, y, cur, nlines, e);
    var c0 := prior.(b := 0, addrGiven := false, fname := None);
    AddressedRange(s, c0, cur, nlines, x, m, q, y, e);
  }

  /** Where the parts of "x" + [c, '\n'] sit. */
  lemma SingleLayout(dx: seq<char>, c: char, s: seq<char>, m: nat)
    requires s == dx + [c, '\n'] && m == |dx| && c != ',' && NotInLine(',', dx)
    ensures |s| == m + 2 && s[0..m] == dx && At(s, m) == c && At(s, m + 1) == '\n'
    ensures NotInLine(',', s)
    ensures |dx| > 0 ==> At(s, 0) == dx[0]
  {
    assert s[0..m] == dx;
  }

  /** Digits contain no comma. */
  lemma DigitsHaveNoComma(d: seq<char>)
    requires AllDigits(d, 10)
    ensures NotInLine(',', d)
  {
    forall k | 0 <= k < |d| ensures d[k] != ',' {
      assert IsDigitIn(d[k], 10);
    }
  }

  /** A single address followed by a command letter and a newline gives b = a. */
  lemma ParseSingle(x: nat, c: char, prior: Cmd, cur: int, nlines: int)
    requires !IsDigitIn(c, 10) && c != ','
    ensures ParseCommand(Some(Digits(x, 10, true) + [c, '\n']), prior, cur, nlines)
         == Parsed(ENone, Cmd(c, x, x, true, None))
  {
    var dx := Digits(x, 10, true);
    var s := dx + [c, '\n'];
    var m := |dx|;
    DigitsHaveNoComma(dx);
    SingleLayout(dx, c, s, m);
    StartsAddressed(s, prior, cur, nlines);
    LinenoAbsolute(s, 0, x, cur, nlines, m);
    NoCommaInString(s);
    var c0 := prior.(b := 0, addrGiven := false, fname := None);
    AddressedSingle(s, c0, cur, nlines, x, m);
  }

  /** A leading space, a leading comma, or a comma not followed by an address is an invalid address. */
  lemma ParseBadAddress(s: seq<char>, prior: Cmd, cur: int, nlines: int)
    requires At(s, 0) == ' ' || At(s, 0) == ','
    ensures ParseCommand(Some(s), prior, cur, nlines).Parsed?
    ensures ParseCommand(Some(s), prior, cur, nlines).err == EBadAddr
  {
    if At(s, 0) == ',' {
      assert UpToNul(s)[0] == ',';
    }
  }

  /** An address and a comma with no address after it is an invalid address. */
  lemma AddressedCommaOnly(s: seq<char>, c0: Cmd, cur: int, nlines: int, x: int, ex: nat, q: nat)
    requires ParseLineno(s, 0, cur, nlines) == Lineno(x, ex) && ex != 0 && At(s, ex) == ','
    requires q == ex + 1 && ParseLineno(s, q, cur, nlines).end == q
    ensures ParseAddressed(s, c0, cur, nlines).err == EBadAddr
  {
  }

  /** "x," followed by anything that is not an address is an invalid address. */
  lemma ParseCommaWithoutSecond(x: nat, rest: seq<char>, prior: Cmd, cur: int, nlines: int)
    requires var c := At(rest, 0);
      !(IsDigitIn(c, 10) || c == '.' || c == '$' || (c == '-' && IsDigitIn(At(rest, 1), 10)))
    ensures ParseCommand(Some(Digits(x, 10, true) + "," + rest), prior, cur, nlines).Parsed?
    ensures ParseCommand(Some(Digits(x, 10, true) + "," + rest), prior, cur, nlines).err == EBadAddr
  {
    var dx := Digits(x, 10, true);
    var s := dx + "," + rest;
    var m := |dx|;
    var q := m + 1;
    CommaLayout(dx, rest, s, m, q);
    StartsAddressed(s, prior, cur, nlines);
    LinenoAbsolute(s, 0, x, cur, nlines, m);
    var c0 := prior.(b := 0, addrGiven := false, fname := None);
    AddressedCommaOnly(s, c0, cur, nlines, x, m, q);
  }

  /** Where the parts of "x," + rest sit. */
  lemma CommaLayout(dx: seq<char>, rest: seq<char>, s: seq<char>, m: nat, q: nat)
    requires s == dx + "," + rest && m == |dx| && q == m + 1
    ensures m < |s| && s[0..m] == dx && At(s, m) == ',' && At(s, q) == At(rest, 0) && At(s, q + 1) == At(rest, 1)
    ensures |dx| > 0 ==> At(s, 0) == dx[0]
  {
    assert s[0..m] == dx;
  }

  /** A command letter followed by more than a newline is an invalid suffix. */
  lemma ParseTrailing(c: char, d: char, rest: seq<char>, prior: Cmd, cur: int, nlines: int)
    requires !(IsDigitIn(c, 10) || c == '.' || c == '$' || c == '-' || c == ' ' || c == 'w')
    requires d != '\0' && d != '\n' && NotInLine(',', [c, d] + rest)
    ensures ParseCommand(Some([c, d] + rest), prior, cur, nlines)
         == Parsed(EBadCmdSuffix, prior.(cmd := c, b := 0, addrGiven := false, fname := None, a := 0))
  {
    NoCommaInString([c, d] + rest);
  }

  /** buffer_cut_range's result: lines a..b (counted from 1, clipped to the buffer) are gone. */
  function CutRange(lines: seq<seq<char>>, a: int, b: int): (r: seq<seq<char>>)
    ensures |r| <= |lines|
  {
    var lo := Clip(a - 1, |lines|);
    var hi := Clip(b, |lines|);
    if lo < hi then lines[..lo] + lines[hi..] else lines
  }

  function Clip(x: int, n: nat): (y: nat)
    ensures y <= n
  {
    if x < 0 then 0 else if x > n then n else x
  }

  /** The lines from number no on whose numbers lie outside a..b: the walk of buffer_cut_range, one node at a time. */
  function Outside(lines: seq<seq<char>>, a: int, b: int, no: int): seq<seq<char>>
    decreases |lines|
  {
    if lines == [] then []
    else (if a <= no <= b then [] else [lines[0]]) + Outside(lines[1..], a, b, no + 1)
  }

  /** CutRange keeps exactly the lines whose number is outside a..b, in order. */
  lemma {:induction false} CutRangeKeepsOutside(lines: seq<seq<char>>, a: int, b: int)
    ensures CutRange(lines, a, b) == Outside(lines, a, b, 1)
  {
    OutsideShift(lines, a, b, 1);
  }

  lemma {:induction false} OutsideShift(lines: seq<seq<char>>, a: int, b: int, no: int)
    ensures Outside(lines, a, b, no) == CutRange(lines, a - no + 1, b - no + 1)
    decreases |lines|
  {
    if lines != [] {
      OutsideShift(lines[1..], a, b, no + 1);
      var t := lines[1..];
      var lo := Clip(a - no, |lines|);
      var hi := Clip(b - no + 1, |lines|);
      var lo' := Clip(a - no - 1, |t|);
      var hi' := Clip(b - no, |t|);
      if a <= no <= b {
        assert lo == 0 && hi == hi' + 1;
        assert lines[hi..] == t[hi'..];
      } else if no < a {
        assert lo == lo' + 1 && hi == (if hi' == 0 && b < no then 0 else hi' + 1);
        if lo' < hi' {
          assert lines[..lo] == [lines[0]] + t[..lo'];
          assert lines[hi..] == t[hi'..];
        }
      } else {
        assert lo == 0 || lo >= hi;
      }
    }
  }

  /** buffer_insert's result: l becomes line number before, or the last line when before is not a line number. */
  function InsertAt(lines: seq<seq<char>>, before: int, l: seq<char>): (r: seq<seq<char>>)
    ensures |r| == |lines| + 1
  {
    if 1 <= before <= |lines| then lines[..before - 1] + [l] + lines[before - 1..] else lines + [l]
  }

  /** l becomes line number before, the other lines keeping their order; otherwise it is the new last line. */
  lemma InsertAtPlaces(lines: seq<seq<char>>, before: int, l: seq<char>)
    ensures var r := InsertAt(lines, before, l);
      (1 <= before <= |lines| + 1 ==> r[before - 1] == l && r[..before - 1] + r[before..] == lines)
      && (!(1 <= before <= |lines|) ==> r == lines + [l])
  {
    var r := InsertAt(lines, before, l);
    if 1 <= before <= |lines| {
      assert r[..before - 1] == lines[..before - 1];
      assert r[before..] == lines[before - 1..];
    } else if before == |lines| + 1 {
      assert r[..before - 1] == lines;
    }
  }

  /** Inserting a line and then cutting that line number gives back the buffer. */
  lemma InsertThenCut(lines: seq<seq<char>>, before: int, l: seq<char>)
    requires 1 <= before <= |lines| + 1
    ensures CutRange(InsertAt(lines, before, l), before, before) == lines
  {
    InsertAtPlaces(lines, before, l);
  }

  /** The lines of an 'i' command from typed[k] on, inserted one after the other from line number before on. */
  function InsertRun(lines: seq<seq<char>>, before: int, typed: seq<seq<char>>, k: nat): (r: seq<seq<char>>)
    requires k <= |typed|
    ensures |r| == |lines| + |typed| - k
    decreases |typed| - k
  {
    if k == |typed| then lines else InsertRun(InsertAt(lines, before, typed[k]), before + 1, typed, k + 1)
  }

  /** One typed line inserted: the run goes on from the next line number. */
  lemma InsertRunStep(lines: seq<seq<char>>, before: int, typed: seq<seq<char>>, k: nat)
    requires k < |typed|
    ensures InsertRun(lines, before, typed, k) == InsertRun(InsertAt(lines, before, typed[k]), before + 1, typed, k + 1)
  {
  }

  /** With every typed line inserted the run leaves the buffer as it is. */
  lemma InsertRunDone(lines: seq<seq<char>>, before: int, typed: seq<seq<char>>, k: nat)
    requires k == |typed|
    ensures InsertRun(lines, before, typed, k) == lines
  {
  }

  /** From a line number of the buffer (or one past its end) the typed lines land there as one block, in order. */
  lemma {:induction false} InsertRunSplices(lines: seq<seq<char>>, before: int, typed: seq<seq<char>>, k: nat)
    requires 1 <= before <= |lines| + 1 && k <= |typed|
    ensures InsertRun(lines, before, typed, k) == lines[..before - 1] + typed[k..] + lines[before - 1..]
    decreases |typed| - k
  {
    if k < |typed| {
      var l1 := InsertAt(lines, before, typed[k]);
      InsertRunStep(lines, before, typed, k);
      InsertRunSplices(l1, before + 1, typed, k + 1);
      SpliceShift(lines, before, typed, k, l1);
    } else {
      assert lines[..before - 1] + typed[k..] + lines[before - 1..] == lines;
    }
  }

  /** One typed line inserted at before: the block from before + 1 on in the result is the block from before on. */
  lemma SpliceShift(lines: seq<seq<char>>, before: int, typed: seq<seq<char>>, k: nat, l1: seq<seq<char>>)
    requires 1 <= before <= |lines| + 1 && k < |typed| && l1 == InsertAt(lines, before, typed[k])
    ensures l1[..before] + typed[k + 1..] + l1[before..] == lines[..before - 1] + typed[k..] + lines[before - 1..]
  {
    assert l1 == lines[..before - 1] + [typed[k]] + lines[before - 1..];
    assert l1[..before] == lines[..before - 1] + [typed[k]];
    assert l1[before..] == lines[before - 1..];
    assert typed[k..] == [typed[k]] + typed[k + 1..];
  }

  /** buffer_validate_addr: both addresses within min..nlines and in order, min 0 for 'i' and 1 otherwise. */
  function ValidAddr(c: Cmd, nlines: int): (ok: bool)
    ensures ok <==> (if c.cmd == 'i' then 0 else 1) <= c.a <= c.b <= nlines
  {
    var addrMin := if c.cmd == 'i' then 0 else 1;
    c.a <= c.b && c.a >= addrMin && c.a <= nlines && c.b >= addrMin && c.b <= nlines
  }

  /** The line buffer: the lines in order, their count, the current line and two flags. */
  class Buffer {
    var lines: seq<seq<char>>
    var nlines: int
    var curLine: int
    var printErrors: bool
    var changed: bool

    ghost predicate Valid()
      reads this
    {
      nlines == |lines|
    }

    /** buffer_init. */
    constructor Init()
      ensures Valid() && lines == [] && curLine == 1 && !printErrors && !changed
    {
      lines := [];
      nlines := 0;
      curLine := 1;
      printErrors := false;
      changed := false;
    }

    /** buffer_init_load over the lines read from the file. */
    constructor InitLoad(text: seq<seq<char>>)
      ensures Valid() && lines == text && curLine == |text| && !printErrors && !changed
    {
      lines := text;
      nlines := |text|;
      curLine := |text|;
      printErrors := false;
      changed := false;
    }

    /** buffer_cut_range: walks the lines, unlinking those numbered a..b. */
    method Cut(a: int, b: int)
      requires Valid()
      modifies this
      ensures Valid() && lines == CutRange(old(lines), a, b)
      ensures changed == (old(changed) || |lines| < |old(lines)|)
      ensures curLine == old(curLine) && printErrors == old(printErrors)
    {
      ghost var all := lines;
      ghost var lo := Clip(a - 1, |all|);
      ghost var hi := Clip(b, |all|);
      var kept: seq<seq<char>> := [];
      var i := 0;
      var no := 1;
      while i < |lines|
        invariant 0 <= i <= hi && no == i + 1 && lines == all
        invariant kept == all[..Min(i, lo)]
        invariant nlines == |all| - (i - |kept|)
        invariant changed == (old(changed) || |kept| < i)
        invariant curLine == old(curLine) && printErrors == old(printErrors)
      {
        if no > b {
          break;
        }
        if no < a {
          assert all[..i + 1] == all[..i] + [all[i]];
          kept := kept + [lines[i]];
        } else {
          nlines := nlines - 1;
          changed := true;
        }
        i := i + 1;
        no := no + 1;
      }
      assert i == hi;
      lines := kept + lines[i..];
    }

    /** buffer_insert: finds line number before, links l in front of it, or at the end when there is no such line. */
    method Insert(before: int, l: seq<char>)
      requires Valid()
      modifies this
      ensures Valid() && lines == InsertAt(old(lines), before, l) && changed
      ensures curLine == old(curLine) && printErrors == old(printErrors)
    {
      var i := 0;
      var no := 1;
      var found := false;
      while i < |lines|
        invariant 0 <= i <= |lines| && no == i + 1
        invariant found ==> no == before && i < |lines|
        invariant !found ==> before < 1 || before > i
        decreases |lines| - i, if found then 0 else 1
      {
        if no == before {
          found := true;
          break;
        }
        i := i + 1;
        no := no + 1;
      }
      if found && nlines != 0 {
        lines := lines[..i] + [l] + lines[i..];
      } else {
        lines := lines + [l];
      }
      nlines := nlines + 1;
      changed := true;
    }
  }

  /** What main does after one command: go on, quit, or abort on a failed assertion. */
  datatype Outcome = Continue | Quit | Abort

  /** The state the command loop of main keeps between commands. */
  datatype State = State(
    lines: seq<seq<char>>, cur: int, printErrors: bool, changed: bool,
    cmd: Cmd, prevWasQ: bool, lastErr: Err, fname: Option<seq<char>>)

  datatype Transition = Transition(st: State, out: Outcome)

  /** The commands that print lines: newline, 'n' and 'p'. */
  predicate Prints(c: char)
  {
    c == '\n' || c == 'n' || c == 'p'
  }

  /** The commands main knows. */
  predicate Known(c: char)
  {
    Prints(c) || c == 'H' || c == 'h' || c == 'q' || c == 'i' || c == 'd' || c == 'w'
  }

  /** The addresses main fills in when the command gave none. */
  function Defaulted(c: Cmd, cur: int): Cmd
  {
    if c.addrGiven then c
    else if c.cmd == '\n' then c.(a := cur + 1, b := cur + 1)
    else c.(a := cur, b := cur)
  }

  /** One pass of main's loop over one input line, the lines typed after 'i' and whether 'w' opens its file. */
  function Next(st: State, line: Option<seq<char>>, typed: seq<seq<char>>, writeOpens: bool): (t: Transition)
  {
    AfterParse(st, ParseCommand(line, st.cmd, st.cur, |st.lines|), typed, writeOpens)
  }

  /** The rest of the pass once parse_command has given p: the checks of the first switch, then the command. */
  function AfterParse(st: State, p: Parsed, typed: seq<seq<char>>, writeOpens: bool): (t: Transition)
  {
    match p
    case AssertFailed => Transition(st, Abort)
    case Parsed(err2, c0) =>
      var c := Defaulted(c0, st.cur);
      var st1 := st.(cmd := c);
      if err2 != ENone && err2 != EBadCmdSuffix then Transition(st1.(lastErr := err2), Continue)
      else if (c.addrGiven || c.cmd == '\n') && !ValidAddr(c, |st.lines|) then Transition(st1.(lastErr := EBadAddr), Continue)
      else if !Known(c.cmd) then Transition(st1.(lastErr := ECmd), Continue)
      else if err2 == EBadCmdSuffix then Transition(st1.(lastErr := err2), Continue)
      else Execute(st1, typed, writeOpens)
  }

  /** The second switch of main, for a known command with valid addresses; st.cmd is the command. */
  function Execute(st: State, typed: seq<seq<char>>, writeOpens: bool): (t: Transition)
  {
    var c := st.cmd.cmd;
    if Prints(c) then ExecPrint(st)
    else if c == 'H' then ExecToggle(st)
    else if c == 'h' then ExecHelp(st)
    else if c == 'q' then ExecQuit(st)
    else if c == 'd' then ExecDelete(st)
    else if c == 'i' then ExecInsert(st, typed)
    else ExecWrite(st, writeOpens)
  }

  /** '\n', 'n' and 'p': the current line becomes the last addressed line. */
  function ExecPrint(st: State): Transition
  {
    Done(st.(cur := st.cmd.b), ENone)
  }

  /** 'H': toggles error printing; prev_was_q is cleared and last_err kept. */
  function ExecToggle(st: State): Transition
  {
    if st.cmd.addrGiven then Done(st, EUnexpAddr)
    else Transition(st.(printErrors := !st.printErrors, prevWasQ := false), Continue)
  }

  /** 'h': prints the last error; prev_was_q is cleared. */
  function ExecHelp(st: State): Transition
  {
    if st.cmd.addrGiven then Done(st, EUnexpAddr)
    else Transition(st.(prevWasQ := false), Continue)
  }

  /** 'q': refuses an address, and a modified buffer unless the previous command was 'q'. */
  function ExecQuit(st: State): Transition
  {
    if st.cmd.addrGiven then Done(st, EUnexpAddr)
    else if st.changed && !st.prevWasQ then Done(st, EBufModified)
    else Transition(st, Quit)
  }

  /** 'd': the addressed lines go; the current line is a, else the last line, else 1. */
  function ExecDelete(st: State): Transition
  {
    var c := st.cmd;
    var ls := CutRange(st.lines, c.a, c.b);
    var cur := if c.a <= |ls| then c.a else |ls|;
    Done(st.(lines := ls, cur := if cur == 0 then 1 else cur, changed := st.changed || |ls| < |st.lines|), ENone)
  }

  /** 'i': the typed lines go in before line a (1 for address 0). */
  function ExecInsert(st: State, typed: seq<seq<char>>): Transition
  {
    var c := st.cmd;
    var before := if c.a == 0 then 1 else c.a;
    var last := before + |typed|;
    Done(st.(lines := InsertRun(st.lines, before, typed, 0),
             cur := if last - c.a > 1 then last - 1 else c.a,
             changed := st.changed || typed != []), ENone)
  }

  /** 'w': writes to the command's file name or the remembered one. */
  function ExecWrite(st: State, writeOpens: bool): Transition
  {
    var ofname := if st.cmd.fname.Some? then st.cmd.fname else st.fname;
    if ofname.None? then Done(st, ENoFn)
    else
      var st1 := st.(fname := if st.fname.None? then ofname else st.fname);
      if writeOpens then Done(st1.(changed := false), ENone) else Done(st1, EBadOf)
  }

  /** The end of a pass: prev_was_q is set from the command, and an error is recorded as last_err. */
  function Done(st: State, err: Err): Transition
  {
    var st1 := st.(prevWasQ := st.cmd.cmd == 'q');
    Transition(if err != ENone then st1.(lastErr := err) else st1, Continue)
  }

  /** 'q' quits exactly when it parsed cleanly without an address and the buffer is unchanged or the previous command was 'q'. */
  lemma QuitOnlyWhenSafe(st: State, p: Parsed, typed: seq<seq<char>>, writeOpens: bool)
    ensures AfterParse(st, p, typed, writeOpens).out == Quit <==>
      p.Parsed? && p.err == ENone && p.cmd.cmd == 'q' && !p.cmd.addrGiven && (!st.changed || st.prevWasQ)
  {
  }

  /** A refused 'q' records why: an address was given, or the buffer was modified. */
  lemma QuitRefused(st: State, p: Parsed, typed: seq<seq<char>>, writeOpens: bool)
    requires p.Parsed? && p.err == ENone && p.cmd.cmd == 'q'
    ensures var t := AfterParse(st, p, typed, writeOpens);
      (p.cmd.addrGiven && ValidAddr(p.cmd, |st.lines|) ==> t.out == Continue && t.st.lastErr == EUnexpAddr && t.st.prevWasQ)
      && (p.cmd.addrGiven && !ValidAddr(p.cmd, |st.lines|) ==> t.out == Continue && t.st.lastErr == EBadAddr)
      && (!p.cmd.addrGiven && st.changed && !st.prevWasQ ==> t.out == Continue && t.st.lastErr == EBufModified && t.st.prevWasQ)
  {
  }

  /** After 'd' the lines a..b are gone and the current line is a, or the last line, and never less than 1. */
  lemma DeleteMovesCursor(st: State, p: Parsed, typed: seq<seq<char>>, writeOpens: bool)
    requires p.Parsed? && p.err == ENone && p.cmd.cmd == 'd' && p.cmd.addrGiven && ValidAddr(p.cmd, |st.lines|)
    ensures var c := p.cmd;
      var t := AfterParse(st, p, typed, writeOpens);
      t.out == Continue
      && t.st.lines == st.lines[..c.a - 1] + st.lines[c.b..]
      && t.st.cur == (if c.a <= |t.st.lines| then c.a else Max(|t.st.lines|, 1))
      && t.st.cur >= 1 && t.st.changed
  {
  }

  /** After 'i' at a valid address the typed lines sit as one block from line max(a, 1), and the cursor is on the last of them. */
  lemma InsertPlacesBlock(st: State, p: Parsed, typed: seq<seq<char>>, writeOpens: bool)
    requires p.Parsed? && p.err == ENone && p.cmd.cmd == 'i' && p.cmd.addrGiven && ValidAddr(p.cmd, |st.lines|)
    ensures var c := p.cmd;
      var before := if c.a == 0 then 1 else c.a;
      var t := AfterParse(st, p, typed, writeOpens);
      t.out == Continue
      && t.st.lines == st.lines[..before - 1] + typed + st.lines[before - 1..]
      && (|typed| > 0 ==> t.st.cur == before + |typed| - 1)
  {
    var c := p.cmd;
    var before := if c.a == 0 then 1 else c.a;
    assert AfterParse(st, p, typed, writeOpens) == ExecInsert(st.(cmd := c), typed);
    InsertRunSplices(st.lines, before, typed, 0);
  }

  /** sizeof(char *) on x86-64: what the 'w' command allocates for the remembered name, plus one. */
  const PointerSize: nat := 8

  /** The bytes the 'w' command allocates for the remembered file name, as written: a pointer's size plus one. */
  function RememberedCapacityAsWritten(ofname: seq<char>): nat
  {
    PointerSize + 1
  }

  /** A nine-character name does not fit the allocation it is copied into. */
  lemma RememberedNameOverflows()
    ensures var name := "notes.txt";
      |UpToNul(name)| + 1 > RememberedCapacityAsWritten(name)
  {
    UpToNulOfTerminated("notes.txt");
  }

  /** A string without NUL is its own contents, with or without a terminator. */
  lemma {:induction false} UpToNulOfTerminated(s: seq<char>)
    requires '\0' !in s
    ensures UpToNul(s + "\0") == s && UpToNul(s) == s
  {
    if s != [] {
      UpToNulOfTerminated(s[1..]);
      assert (s + "\0")[1..] == s[1..] + "\0";
    }
  }

  /** The remembered name as intended: room for the name and its terminator, then strcpy. */
  method RememberName(ofname: seq<char>) returns (f: array<char>)
    ensures fresh(f) && f.Length == |UpToNul(ofname)| + 1
    ensures UpToNul(f[..]) == UpToNul(ofname)
  {
    f := new char[|UpToNul(ofname)| + 1];
    CString.Strcpy(f, ofname);
    assert f[..] == UpToNul(ofname) + ['\0'];
    CString.UpToNulAt(f[..], |UpToNul(ofname)|);
  }

  /**
   * The editor: the buffer and the variables main keeps across commands.
   * cmd starts as an arbitrary record (it is uninitialised in main).
   */
  class Editor {
    const buf: Buffer
    var cmd: Cmd
    var prevWasQ: bool
    var lastErr: Err
    var fname: Option<seq<char>>

    ghost predicate Valid()
      reads this, buf
    {
      buf.Valid()
    }

    ghost function Abs(): State
      reads this, buf
    {
      State(buf.lines, buf.curLine, buf.printErrors, buf.changed, cmd, prevWasQ, lastErr, fname)
    }

    /** The start of main: the file named on the command line, if it writeOpens, is loaded; otherwise the buffer is empty. */
    constructor (name: Option<seq<char>>, file: Option<seq<seq<char>>>)
      ensures Valid() && fresh(buf)
      ensures buf.lines == (if name.Some? && file.Some? then file.value else [])
      ensures lastErr == (if name.Some? && file.None? then EInput else ENone)
      ensures fname == name && !prevWasQ && !buf.changed
    {
      if name.Some? && file.Some? {
        buf := new Buffer.InitLoad(file.value);
      } else {
        buf := new Buffer.Init();
      }
      cmd := Cmd('\0', 0, 0, false, None);
      prevWasQ := false;
      lastErr := if name.Some? && file.None? then EInput else ENone;
      fname := name;
    }

    /** One pass of the command loop. */
    method Step(line: Option<seq<char>>, typed: seq<seq<char>>, writeOpens: bool) returns (out: Outcome)
      requires Valid()
      modifies this, buf
      ensures Valid()
      ensures Transition(Abs(), out) == Next(old(Abs()), line, typed, writeOpens)
    {
      var p := ParseCommand(line, cmd, buf.curLine, buf.nlines);
      if p.AssertFailed? {
        return Abort;
      }
      var err2 := p.err;
      cmd := Defaulted(p.cmd, buf.curLine);
      if err2 != ENone && err2 != EBadCmdSuffix {
        lastErr := err2;
        return Continue;
      }
      if (cmd.addrGiven || cmd.cmd == '\n') && !ValidAddr(cmd, buf.nlines) {
        lastErr := EBadAddr;
        return Continue;
      }
      if !Known(cmd.cmd) {
        lastErr := ECmd;
        return Continue;
      }
      if err2 == EBadCmdSuffix {
        lastErr := err2;
        return Continue;
      }
      out := Dispatch(typed, writeOpens);
    }

    /** The second switch of main and the bookkeeping after it. */
    method Dispatch(typed: seq<seq<char>>, writeOpens: bool) returns (out: Outcome)
      requires Valid() && Known(cmd.cmd)
      modifies this, buf
      ensures Valid()
      ensures Transition(Abs(), out) == Execute(old(Abs()), typed, writeOpens)
    {
      var c := cmd.cmd;
      if Prints(c) {
        out := PrintCmd();
      } else if c == 'H' {
        out := ToggleCmd();
      } else if c == 'h' {
        out := HelpCmd();
      } else if c == 'q' {
        out := QuitCmd();
      } else if c == 'd' {
        out := DeleteCmd();
      } else if c == 'i' {
        out := InsertCmd(typed);
      } else {
        out := WriteCmd(writeOpens);
      }
    }

    /** The bookkeeping at the end of a pass, as Done states it. */
    method Finish(err: Err)
      modifies this
      ensures cmd == old(cmd) && fname == old(fname)
      ensures prevWasQ == (cmd.cmd == 'q')
      ensures lastErr == (if err != ENone then err else old(lastErr))
    {
      prevWasQ := cmd.cmd == 'q';
      if err != ENone {
        lastErr := err;
      }
    }

    method PrintCmd() returns (out: Outcome)
      requires Valid()
      modifies this, buf
      ensures Valid()
      ensures Transition(Abs(), out) == ExecPrint(old(Abs()))
    {
      buf.curLine := cmd.b;
      Finish(ENone);
      out := Continue;
    }

    method ToggleCmd() returns (out: Outcome)
      requires Valid()
      modifies this, buf
      ensures Valid()
      ensures Transition(Abs(), out) == ExecToggle(old(Abs()))
    {
      if cmd.addrGiven {
        Finish(EUnexpAddr);
      } else {
        buf.printErrors := !buf.printErrors;
        prevWasQ := false;
      }
      out := Continue;
    }

    method HelpCmd() returns (out: Outcome)
      requires Valid()
      modifies this, buf
      ensures Valid()
      ensures Transition(Abs(), out) == ExecHelp(old(Abs()))
    {
      if cmd.addrGiven {
        Finish(EUnexpAddr);
      } else {
        prevWasQ := false;
      }
      out := Continue;
    }

    method QuitCmd() returns (out: Outcome)
      requires Valid()
      modifies this, buf
      ensures Valid()
      ensures Transition(Abs(), out) == ExecQuit(old(Abs()))
    {
      if cmd.addrGiven {
        Finish(EUnexpAddr);
        out := Continue;
      } else if buf.changed && !prevWasQ {
        Finish(EBufModified);
        out := Continue;
      } else {
        out := Quit;
      }
    }

    method DeleteCmd() returns (out: Outcome)
      requires Valid()
      modifies this, buf
      ensures Valid()
      ensures Transition(Abs(), out) == ExecDelete(old(Abs()))
    {
      Delete();
      Finish(ENone);
      out := Continue;
    }

    method InsertCmd(typed: seq<seq<char>>) returns (out: Outcome)
      requires Valid() && cmd.cmd == 'i'
      modifies this, buf
      ensures Valid()
      ensures Transition(Abs(), out) == ExecInsert(old(Abs()), typed)
    {
      var err := InsertTyped(typed);
      Finish(err);
      out := Continue;
    }

    method WriteCmd(writeOpens: bool) returns (out: Outcome)
      requires Valid() && cmd.cmd == 'w'
      modifies this, buf
      ensures Valid()
      ensures Transition(Abs(), out) == ExecWrite(old(Abs()), writeOpens)
    {
      var err := Write(writeOpens);
      Finish(err);
      out := Continue;
    }

    /** The 'd' command: the lines go, and the current line is a, else the last line, else 1. */
    method Delete()
      requires Valid()
      modifies buf
      ensures Valid() && buf.lines == CutRange(old(buf.lines), cmd.a, cmd.b)
      ensures var cur := if cmd.a <= |buf.lines| then cmd.a else |buf.lines|;
        buf.curLine == (if cur == 0 then 1 else cur)
      ensures buf.changed == (old(buf.changed) || |buf.lines| < |old(buf.lines)|)
      ensures buf.printErrors == old(buf.printErrors)
    {
      buf.Cut(cmd.a, cmd.b);
      if cmd.a <= buf.nlines {
        buf.curLine := cmd.a;
      } else {
        buf.curLine := buf.nlines;
      }
      if buf.curLine == 0 {
        buf.curLine := 1;
      }
    }

    /** The 'i' command: every typed line goes in at before, which then moves one on. */
    method InsertTyped(typed: seq<seq<char>>) returns (err: Err)
      requires Valid() && cmd.cmd == 'i'
      modifies buf
      ensures Valid() && err == ENone
      ensures buf.lines == InsertRun(old(buf.lines), if cmd.a == 0 then 1 else cmd.a, typed, 0)
      ensures var last := (if cmd.a == 0 then 1 else cmd.a) + |typed|;
        buf.curLine == (if last - cmd.a > 1 then last - 1 else cmd.a)
      ensures buf.changed == (old(buf.changed) || typed != [])
      ensures buf.printErrors == old(buf.printErrors)
    {
      var a := cmd.a;
      var before := if a == 0 then 1 else a;
      ghost var b0 := before;
      ghost var target := InsertRun(buf.lines, b0, typed, 0);
      assert target == InsertRun(old(buf.lines), if cmd.a == 0 then 1 else cmd.a, typed, 0);
      var k := 0;
      while k < |typed|
        invariant 0 <= k <= |typed| && before == b0 + k && buf.Valid()
        invariant InsertRun(buf.lines, before, typed, k) == target
        invariant buf.changed == (old(buf.changed) || k > 0)
        invariant buf.printErrors == old(buf.printErrors)
      {
        ghost var prev := buf.lines;
        buf.Insert(before, typed[k]);
        InsertRunStep(prev, before, typed, k);
        before := before + 1;
        k := k + 1;
      }
      InsertRunDone(buf.lines, before, typed, k);
      assert buf.lines == target;
      buf.curLine := if before - a > 1 then before - 1 else a;
      assert cmd.a == a;
      err := ENone;
    }

    /** The 'w' command: the command's file name or the remembered one; the first name used is remembered. */
    method Write(writeOpens: bool) returns (err: Err)
      requires Valid() && cmd.cmd == 'w'
      modifies this, buf
      ensures Valid() && cmd == old(cmd) && prevWasQ == old(prevWasQ) && lastErr == old(lastErr)
      ensures var ofname := if cmd.fname.Some? then cmd.fname else old(fname);
        (ofname.None? ==> err == ENoFn && fname == old(fname) && buf.changed == old(buf.changed))
        && (ofname.Some? ==>
              fname == (if old(fname).None? then ofname else old(fname))
              && err == (if writeOpens then ENone else EBadOf)
              && buf.changed == (if writeOpens then false else old(buf.changed)))
      ensures buf.lines == old(buf.lines) && buf.curLine == old(buf.curLine) && buf.printErrors == old(buf.printErrors)
    {
      var ofname := cmd.fname;
      if ofname.None? {
        ofname := fname;
      }
      if ofname.None? {
        return ENoFn;
      }
      if fname.None? {
        fname := ofname;
      }
      if writeOpens {
        buf.changed := false;
        err := ENone;
      } else {
        err := EBadOf;
      }
    }
  }
}
