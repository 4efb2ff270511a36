/**
 * The line list of the pager (user/less/less.c). The doubly linked list of
 * lines read so far is a sequence: the node at position k has the line at
 * k - 1 as prev and the one at k + 1 as next, and a line pointer is the
 * position of its node, None standing for NULL. append links a new last
 * node; sub and add walk the pointer; search scans for a line whose text
 * contains the search string. The terminal, poll and the printing are
 * left out; the status-range and margin arithmetic of prt and main are
 * functions.
 */
module Less {
  import opened Common
  import opened CText
  import CString

  /** The maximal line width. */
  const BUFSZ: int := 1024

  /** A node of the list: its line number, its length and its characters with a terminator. */
  datatype Line = Line(no: int, len: int, cs: seq<char>)

  /** strstr(cs, s) is not NULL: s occurs in cs before its terminator. */
  predicate Contains(cs: seq<char>, s: seq<char>)
  {
    exists j :: 0 <= j < |UpToNul(cs)| && CString.Occurs(cs, j, s)
  }

  /** Where sub(lptr, n) stops: n lines back, or at the first line. */
  function Back(pos: nat, n: int): (r: nat)
    ensures r <= pos && (r == 0 || r == pos - Max(n, 0))
    ensures n >= 0 ==> pos - r <= n
  {
    pos - Min(Max(n, 0), pos)
  }

  /** Where add(lptr, n) stops in a list of count lines: n lines on, or at the last line. */
  function Ahead(pos: nat, n: int, count: nat): (r: nat)
    requires pos < count
    ensures pos <= r < count && (r == count - 1 || r == pos + Max(n, 0))
    ensures n >= 0 ==> r - pos <= n
  {
    pos + Min(Max(n, 0), count - 1 - pos)
  }

  /** Moving back n lines and then on n lines returns to the start when the first line was not reached. */
  lemma BackThenAhead(pos: nat, n: nat, count: nat)
    requires pos < count && n <= pos
    ensures Ahead(Back(pos, n), n, count) == pos
  {
  }

  /** The list read so far. */
  class Text {
    var lines: seq<Line>

    /** Lines are numbered 1, 2, 3, … in list order and each holds len characters and a terminator. */
    ghost predicate Valid()
      reads this
    {
      forall k :: 0 <= k < |lines| ==>
        lines[k].no == k + 1 && 0 <= lines[k].len && |lines[k].cs| == lines[k].len + 1
        && lines[k].cs[lines[k].len] == '\0'
    }

    constructor ()
      ensures Valid() && lines == []
    {
      lines := [];
    }

    /**
     * append(rl, buf, sz), with rl the last line read as main passes it:
     * the new node is numbered one more than rl (1 without rl), follows
     * rl, and holds the sz characters of buf and a terminator.
     */
    method Append(buf: array<char>, sz: int) returns (rl: nat)
      requires 0 <= sz <= buf.Length
      modifies this
      ensures lines == old(lines) + [Line(if old(lines) == [] then 1 else old(lines)[|old(lines)| - 1].no + 1,
                                          sz, buf[..sz] + ['\0'])]
      ensures rl == |lines| - 1
      ensures old(Valid()) ==> Valid()
    {
      var no := 1;
      if lines != [] {
        no := lines[|lines| - 1].no + 1;
      }
      lines := lines + [Line(no, sz, buf[..sz] + ['\0'])];
      rl := |lines| - 1;
    }

    /** sub: moves lptr back n lines, stopping at the first line; NULL stays NULL. */
    method Sub(lptr: Option<nat>, n: int) returns (r: Option<nat>)
      requires lptr.Some? ==> lptr.value < |lines|
      ensures r == if lptr.None? then None else Some(Back(lptr.value, n))
    {
      var i := 0;
      r := lptr;
      while r.Some? && i < n
        invariant 0 <= i && (i > 0 ==> i <= n)
        invariant lptr.None? ==> r.None?
        invariant lptr.Some? ==> i <= lptr.value && r == Some(lptr.value - i)
      {
        if r.value == 0 {
          break;
        }
        r := Some(r.value - 1);
        i := i + 1;
      }
    }

    /** add: moves lptr on n lines, stopping at the last line; NULL stays NULL. */
    method Add(lptr: Option<nat>, n: int) returns (r: Option<nat>)
      requires lptr.Some? ==> lptr.value < |lines|
      ensures r == if lptr.None? then None else Some(Ahead(lptr.value, n, |lines|))
    {
      var i := 0;
      r := lptr;
      while r.Some? && i < n
        invariant 0 <= i && (i > 0 ==> i <= n)
        invariant lptr.None? ==> r.None?
        invariant lptr.Some? ==> lptr.value + i < |lines| && r == Some(lptr.value + i)
      {
        if r.value + 1 == |lines| {
          break;
        }
        r := Some(r.value + 1);
        i := i + 1;
      }
    }

    /**
     * search: the first line from lptr on (fwd) or back (not fwd), lptr
     * included, whose text contains s; NULL when there is none.
     */
    method Search(lptr: Option<nat>, s: seq<char>, fwd: bool) returns (r: Option<nat>)
      requires lptr.Some? ==> lptr.value < |lines|
      ensures r.Some? ==> lptr.Some? && r.value < |lines| && Contains(lines[r.value].cs, s)
      ensures r.Some? && fwd ==>
        lptr.value <= r.value && forall k :: lptr.value <= k < r.value ==> !Contains(lines[k].cs, s)
      ensures r.Some? && !fwd ==>
        r.value <= lptr.value && forall k :: r.value < k <= lptr.value ==> !Contains(lines[k].cs, s)
      ensures r.None? && lptr.Some? && fwd ==> forall k :: lptr.value <= k < |lines| ==> !Contains(lines[k].cs, s)
      ensures r.None? && lptr.Some? && !fwd ==> forall k :: 0 <= k <= lptr.value ==> !Contains(lines[k].cs, s)
    {
      var p := lptr;
      while p.Some?
        invariant p.Some? ==> p.value < |lines|
        invariant lptr.None? ==> p.None?
        invariant fwd && lptr.Some? ==>
          var upTo := if p.Some? then p.value else |lines|;
          lptr.value <= upTo && forall k :: lptr.value <= k < upTo ==> !Contains(lines[k].cs, s)
        invariant !fwd && lptr.Some? ==>
          var downTo := if p.Some? then p.value else -1;
          downTo <= lptr.value && forall k :: downTo < k <= lptr.value ==> !Contains(lines[k].cs, s)
        decreases if p.None? then 0 else if fwd then |lines| - p.value else p.value + 1
      {
        var m := CString.Strstr(lines[p.value].cs, s);
        if m.Some? {
          return p;
        }
        if fwd {
          p := if p.value + 1 < |lines| then Some(p.value + 1) else None;
        } else {
          p := if p.value > 0 then Some(p.value - 1) else None;
        }
      }
      r := None;
    }
  }

  /**
   * The first line number of the status range of prt: h lines up to en,
   * but not before line 1.
   */
  function StatusStart(en: int, h: int): (sn: int)
    ensures sn >= 1 && sn >= en - h + 1 && (sn == 1 || sn == en - h + 1)
    ensures en >= 1 && h >= 1 ==> sn <= en && en - sn + 1 <= h
  {
    if en - h + 1 > 0 then en - h + 1 else 1
  }

  /** The margin after 'h': hstep further left while it is positive, never below 0. */
  function ScrollLeft(l: int, hstep: int): (r: int)
    requires 0 <= l <= BUFSZ - 2 && hstep >= 0
    ensures 0 <= r <= l
    ensures l > 0 ==> r == Max(l - hstep, 0)
    ensures l == 0 ==> r == 0
  {
    if l > 0 then (if l - hstep < 0 then 0 else l - hstep) else l
  }

  /** The margin after 'l': hstep further right while it is below BUFSZ - 2, never beyond. */
  function ScrollRight(l: int, hstep: int): (r: int)
    requires 0 <= l <= BUFSZ - 2 && hstep >= 0
    ensures l <= r <= BUFSZ - 2
    ensures l < BUFSZ - 2 ==> r == Min(l + hstep, BUFSZ - 2)
  {
    if l < BUFSZ - 2 then (if l + hstep > BUFSZ - 2 then BUFSZ - 2 else l + hstep) else l
  }

  /** Scrolling right and then left returns to the same margin unless the right edge clipped it. */
  lemma ScrollRightThenLeft(l: int, hstep: int)
    requires 0 <= l && l + hstep <= BUFSZ - 2 && 0 < hstep
    ensures ScrollLeft(ScrollRight(l, hstep), hstep) == l
  {
  }

  /**
   * The line number shown last after 'b' with the last shown line numbered
   * no: h lines up when more than 2h lines are above, else up to line h;
   * None (no redraw) when line h or an earlier one is already last.
   */
  function PageUp(no: int, h: int): (r: Option<int>)
    requires no >= 1 && h >= 1
    ensures r.Some? <==> no > h
    ensures r.Some? ==> h <= r.value < no && (r.value == h || r.value == no - h)
  {
    if no > 2 * h then Some(Back(no - 1, h) + 1)
    else if no > h then Some(Back(no - 1, no - h) + 1)
    else None
  }
}
