/** The scrolling text screen of src/debug-vga.c, against the history of characters written to it. */
module VgaScreen {
  import opened LibcString

  const COLS := 80
  const ROWS := 25
  const ATTR: byte := 7
  const NEWLINE: byte := 10

  /** Bytes of a row: a character and an attribute for each column. */
  const ROW := 160

  type Line = seq<byte>

  // ----- history -----

  /** A line cut into rows; a row that is full is followed by another. */
  function Wrapped(s: Line): (r: seq<Line>)
    ensures |r| >= 1 && |r[|r| - 1]| < COLS
    ensures forall i :: 0 <= i < |r| ==> |r[i]| <= COLS
  {
    if |s| < COLS then [s] else [s[..COLS]] + Wrapped(s[COLS..])
  }

  /** The stream split at newlines, each line wrapped. */
  function Lines(s: seq<byte>): (r: seq<Line>)
    ensures |r| >= 1 && |r[|r| - 1]| < COLS
    ensures forall i :: 0 <= i < |r| ==> |r[i]| <= COLS
  {
    var i := NextNewline(s);
    if i == |s| then Wrapped(s) else Wrapped(s[..i]) + Lines(s[i + 1..])
  }

  function NextNewline(s: seq<byte>): (i: nat)
    ensures i <= |s| && (i < |s| ==> s[i] == NEWLINE) && forall k :: 0 <= k < i ==> s[k] != NEWLINE
  {
    if s == [] || s[0] == NEWLINE then 0 else 1 + NextNewline(s[1..])
  }

  /** The characters of a line from 80 * k on, up to 80 of them. */
  function RowOf(s: Line, k: nat): Line
    requires 80 * k <= |s|
  {
    s[80 * k..if 80 * k + 80 <= |s| then 80 * k + 80 else |s|]
  }

  lemma RowOfTail(s: Line, k: nat)
    requires k >= 1 && 80 * k <= |s|
    ensures RowOf(s[80..], k - 1) == RowOf(s, k)
  {
  }

  /** They are row `k` of the wrapped line. */
  lemma {:induction false} WrappedRows(s: Line, k: nat)
    requires 80 * k <= |s|
    ensures |Wrapped(s)| == |s| / 80 + 1
    ensures Wrapped(s)[k] == RowOf(s, k)
  {
    hide RowOf;
    if |s| < 80 {
      assert RowOf(s, 0) == s by { FirstRow(s); }
    } else if k == 0 {
      WrappedRows(s[80..], 0);
      FirstRow(s);
    } else {
      WrappedRows(s[80..], k - 1);
      RowOfTail(s, k);
    }
  }

  lemma FirstRow(s: Line)
    ensures RowOf(s, 0) == if |s| < 80 then s else s[..80]
  {
  }

  /** Lines with newlines between them. */
  function Joined(ls: seq<Line>): seq<byte>
    requires |ls| >= 1
  {
    if |ls| == 1 then ls[0] else ls[0] + [10] + Joined(ls[1..])
  }

  /** Short lines without newlines become the rows. */
  lemma {:induction false} ShortLines(ls: seq<Line>)
    requires |ls| >= 1 && forall l :: l in ls ==> |l| < 80 && 10 !in l
    ensures Lines(Joined(ls)) == ls
  {
    hide Lines;
    var first := ls[0];
    assert first in ls && forall l :: l in ls[1..] ==> l in ls;
    if |ls| == 1 {
      OneLine(first);
      assert ls == [first];
    } else {
      ShortLines(ls[1..]);
      FirstLine(first, Joined(ls[1..]));
      assert ls == [first] + ls[1..];
    }
  }

  lemma OneLine(s: Line)
    requires |s| < 80 && 10 !in s
    ensures Lines(s) == [s]
  {
    NewlineIs(s, |s|);
  }

  lemma FirstLine(first: Line, rest: seq<byte>)
    requires |first| < 80 && 10 !in first
    ensures Lines(first + [10] + rest) == [first] + Lines(rest)
  {
    var s := first + [10] + rest;
    assert s[..|first|] == first && s[|first|] == 10 && s[|first| + 1..] == rest;
    assert forall k :: 0 <= k < |first| ==> s[k] == first[k] && first[k] in first;
    NewlineIs(s, |first|);
  }

  /** What one more character does to the rows. */
  function Extended(lines: seq<Line>, c: byte): seq<Line>
    requires |lines| >= 1
  {
    if c == NEWLINE then lines + [[]]
    else WithLast(lines, c) + if |lines[|lines| - 1]| + 1 >= COLS then [[]] else []
  }

  /** The last row with one more character. */
  function WithLast(lines: seq<Line>, c: byte): seq<Line>
    requires |lines| >= 1
  {
    var last: Line := lines[|lines| - 1] + [c];
    lines[..|lines| - 1] + [last]
  }

  lemma {:induction false} WrappedExtends(s: Line, c: byte)
    requires c != NEWLINE
    ensures Wrapped(s + [c]) == Extended(Wrapped(s), c)
  {
    if |s| < COLS {
      if |s| == COLS - 1 {
        assert (s + [c])[..COLS] == s + [c] && (s + [c])[COLS..] == [];
      }
    } else {
      assert (s + [c])[..COLS] == s[..COLS] && (s + [c])[COLS..] == s[COLS..] + [c];
      WrappedExtends(s[COLS..], c);
      ExtendedTail([s[..COLS]], Wrapped(s[COLS..]), c);
    }
  }

  lemma ExtendedTail(x: seq<Line>, y: seq<Line>, c: byte)
    requires |y| >= 1
    ensures Extended(x + y, c) == x + Extended(y, c)
  {
    assert (x + y)[..|x + y| - 1] == x + y[..|y| - 1];
  }

  lemma {:induction false} NewlineIs(s: seq<byte>, i: nat)
    requires i <= |s| && (i < |s| ==> s[i] == NEWLINE) && forall k :: 0 <= k < i ==> s[k] != NEWLINE
    ensures NextNewline(s) == i
  {
  }

  lemma {:induction false} LinesExtend(s: seq<byte>, c: byte)
    ensures Lines(s + [c]) == Extended(Lines(s), c)
    decreases |s|
  {
    var i, t := NextNewline(s), s + [c];
    if i < |s| {
      NewlineIs(t, i);
      assert t[..i] == s[..i] && t[i + 1..] == s[i + 1..] + [c];
      LinesExtend(s[i + 1..], c);
      ExtendedTail(Wrapped(s[..i]), Lines(s[i + 1..]), c);
    } else if c == NEWLINE {
      NewlineIs(t, i);
      assert t[..i] == s && t[i + 1..] == [];
    } else {
      NewlineIs(t, |t|);
      WrappedExtends(s, c);
    }
  }

  // ----- the screen -----

  /** Index of the row at the top of the screen. */
  function Top(lines: seq<Line>): nat {
    if |lines| > ROWS then |lines| - ROWS else 0
  }

  /** Byte `i` of the video memory of a screen that shows the last rows, with zeros where nothing was
      written. */
  function Shown(lines: seq<Line>, i: nat): byte {
    var row, col := Top(lines) + i / ROW, i % ROW / 2;
    if row < |lines| && col < |lines[row]| then if i % 2 == 0 then lines[row][col] else ATTR else 0
  }

  /** Column `c` of row `r` of the screen, with its attribute: the last 25 rows, from the top. */
  lemma ShownAt(lines: seq<Line>, r: nat, c: nat)
    requires r < 25 && c < 80
    ensures var row := (if |lines| > 25 then |lines| - 25 else 0) + r;
      var written := row < |lines| && c < |lines[row]|;
      && Shown(lines, 160 * r + 2 * c) == (if written then lines[row][c] else 0)
      && Shown(lines, 160 * r + 2 * c + 1) == (if written then 7 else 0)
  {
  }

  class Screen {
    const vidmem: array<byte>
    var vidX: nat
    var vidY: nat

    /** The video memory, with anything in it, and the cursor as static data starts. */
    constructor (vidmem: array<byte>)
      requires vidmem.Length == ROWS * ROW
      ensures this.vidmem == vidmem && vidX == vidY == 0
    {
      this.vidmem := vidmem;
      vidX, vidY := 0, 0;
    }

    /** The screen shows the end of the stream, and the cursor is behind it. */
    ghost predicate Shows(s: seq<byte>)
      reads this, vidmem
    {
      ShowsLines(Lines(s))
    }

    ghost predicate ShowsLines(lines: seq<Line>)
      reads this, vidmem
    {
      && vidmem.Length == ROWS * ROW && |lines| >= 1
      && vidY == |lines| - 1 - Top(lines) && vidX == |lines[|lines| - 1]|
      && forall i :: 0 <= i < ROWS * ROW ==> vidmem[i] == Shown(lines, i)
    }

    lemma CursorInside(s: seq<byte>)
      requires Shows(s)
      ensures vidX < COLS && vidY < ROWS
    {
    }

    /** dbg_x86_vgamem_init */
    method Init()
      requires vidmem.Length == ROWS * ROW
      modifies this, vidmem
      ensures Shows([])
    {
      Memset(vidmem, 0, 0, COLS * ROWS * 2);
      vidX, vidY := 0, 0;
    }

    /** vgamem_newln, after a row that is complete */
    method NewLine(ghost lines: seq<Line>)
      requires |lines| >= 1 && vidmem.Length == ROWS * ROW && vidY == |lines| - 1 - Top(lines)
      requires forall i :: 0 <= i < ROWS * ROW ==> vidmem[i] == Shown(lines, i)
      modifies this, vidmem
      ensures ShowsLines(lines + [[]])
    {
      vidX := 0;
      vidY := vidY + 1;
      ghost var was, next := vidmem[..], lines + [[]];
      if vidY >= ROWS {
        vidY := ROWS - 1;
        Memmove(vidmem, 0, 2 * COLS, (ROWS - 1) * 2 * COLS);
        Memset(vidmem, (ROWS - 1) * 2 * COLS, 0, 2 * COLS);
        forall i | 0 <= i < ROWS * ROW
          ensures vidmem[i] == Shown(next, i)
        {
          Scrolled(lines, was, vidmem[..], i);
        }
      } else {
        forall i | 0 <= i < ROWS * ROW
          ensures vidmem[i] == Shown(next, i)
        {
          EmptyRow(lines, i);
        }
      }
    }

    /** The character and its attribute at the cursor */
    method PutCell(c: byte, ghost lines: seq<Line>)
      requires ShowsLines(lines) && vidX < COLS
      modifies vidmem
      ensures forall i :: 0 <= i < ROWS * ROW ==> vidmem[i] == Shown(WithLast(lines, c), i)
    {
      hide Shown;
      var at := (vidX + vidY * COLS) * 2;
      ghost var was := vidmem[..];
      vidmem[at] := c;
      vidmem[at + 1] := ATTR;
      forall i | 0 <= i < ROWS * ROW
        ensures vidmem[i] == Shown(WithLast(lines, c), i)
      {
        OneMore(lines, c, vidX, vidY, i);
        assert was[i] == Shown(lines, i);
      }
    }

    /** dbg_x86_vgamem_putc */
    method Putc(c: byte, ghost s: seq<byte>)
      requires Shows(s)
      modifies this, vidmem
      ensures Shows(s + [c])
    {
      hide Shown, Lines;
      ghost var lines := Lines(s);
      LinesExtend(s, c);
      CursorInside(s);
      if c == NEWLINE {
        NewLine(lines);
      } else {
        PutCell(c, lines);
        vidX := vidX + 1;
        if vidX >= COLS {
          NewLine(WithLast(lines, c));
        } else {
          assert Lines(s + [c]) == WithLast(lines, c) + [] == WithLast(lines, c);
        }
      }
    }

    /** dbg_x86_vgamem_putstr: after a string, the screen shows what was written before and the string. */
    method Putstr(str: seq<byte>, ghost s: seq<byte>)
      requires Shows(s)
      modifies this, vidmem
      ensures Shows(s + str)
    {
      var i := 0;
      assert s + str[..0] == s;
      while i < |str|
        invariant i <= |str| && Shows(s + str[..i])
      {
        assert s + str[..i + 1] == s + str[..i] + [str[i]];
        Putc(str[i], s + str[..i]);
        i := i + 1;
      }
      assert str[..i] == str;
    }
  }

  lemma Scrolled(lines: seq<Line>, was: seq<byte>, now: seq<byte>, i: nat)
    requires |lines| >= ROWS && |was| == |now| == ROWS * ROW && i < ROWS * ROW
    requires forall k :: 0 <= k < ROWS * ROW ==> was[k] == Shown(lines, k)
    requires var moved := was[..0] + was[ROW..ROWS * ROW] + was[(ROWS - 1) * ROW..];
      now == LibcString.Filled(moved, (ROWS - 1) * ROW, ROW, 0)
    ensures now[i] == Shown(lines + [[]], i)
  {
    if i < (ROWS - 1) * ROW {
      assert now[i] == was[i + ROW];
    }
  }

  lemma EmptyRow(lines: seq<Line>, i: nat)
    requires 1 <= |lines| < ROWS
    ensures Shown(lines + [[]], i) == Shown(lines, i)
  {
  }

  lemma OneMore(lines: seq<Line>, c: byte, x: nat, y: nat, i: nat)
    requires |lines| >= 1 && y == |lines| - 1 - Top(lines) && x == |lines[|lines| - 1]| < COLS
    ensures var at := (x + y * COLS) * 2;
      Shown(WithLast(lines, c), i) == if i == at then c else if i == at + 1 then ATTR else Shown(lines, i)
  {
  }
}
