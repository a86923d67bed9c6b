/** The terminal's own code: flat cell arrays changed in place, byte by byte. */
module TerminalDriver {
  import opened Bytes
  import opened Arith
  import opened Terminal

  class TerminalBuffer {
    const cells: array<Cell>
    const cols: nat
    const rows: nat
    var x: int
    var y: int
    var fg: nat
    var bg: nat
    var inEscape: bool
    const escape: array<byte>
    var escapeLen: nat
    var fullRefresh: bool

    ghost predicate Valid()
      reads this, escape
    {
      cols > 0 && rows > 0 && cells.Length == Times(rows, cols) && escape.Length == 32 && escapeLen <= 32
    }

    ghost function T(): Term
      requires Valid()
      reads this, cells, escape
    {
      Term(cells[..], cols, rows, x, y, fg, bg, inEscape, escape[..escapeLen], fullRefresh)
    }

    /** The state that `term_create` sets up, before its greeting. */
    constructor (cols: nat, rows: nat)
      requires cols > 0 && rows > 0
      ensures Valid() && Fresh(T()) && T().cols == cols && T().rows == rows && fresh(cells) && fresh(escape)
    {
      this.cols, this.rows := cols, rows;
      TimesIs(rows, cols);
      cells := new Cell[rows * cols](_ => Cell(SPACE, 7, 0));
      escape := new byte[32];
      x, y, fg, bg, inEscape, escapeLen, fullRefresh := 0, 0, 7, 0, false, 0, true;
      new;
      BlankSheet(rows, cols);
      assert cells[..] == Sheet(EmptyLines(rows), cols);
    }

    /** `term_clear_line` */
    method ClearRow(row: nat)
      requires Valid() && row < rows
      modifies cells
      ensures Valid() && T() == ClearLine(old(T()), row)
    {
      ghost var t := T();
      IndexInside(t, row, 0);
      TimesIs(row, cols);
      ghost var at := Times(row, cols);
      for col := 0 to cols
        invariant forall i :: 0 <= i < cells.Length ==> cells[i] == if at <= i < at + col then Blank(t) else t.cells[i]
      {
        var idx := row * cols + col;
        cells[idx] := Cell(SPACE, fg, bg);
      }
      assert cells[..] == ClearLine(t, row).cells;
    }

    /** `term_copy_cells` within the grid: the destination lies below the source, so going upwards is safe. */
    method CopyDown(from: nat, count: nat)
      requires from + count <= cells.Length
      modifies cells
      ensures cells[..count] == old(cells[from..from + count]) && cells[count..] == old(cells[count..])
    {
      ghost var before := cells[..];
      for i := 0 to count
        invariant forall j :: 0 <= j < i ==> cells[j] == before[from + j]
        invariant forall j :: i <= j < cells.Length ==> cells[j] == before[j]
      {
        cells[i] := cells[from + i];
      }
      assert cells[..count] == before[from..from + count];
    }

    /** `term_scroll_up` */
    method Scroll()
      requires Valid()
      modifies this, cells
      ensures Valid() && T() == ScrollUp(old(T()))
    {
      ghost var t := T();
      TimesMonotone(1, rows, cols);
      TimesIs(rows - 1, cols);
      CopyDown(cols, (rows - 1) * cols);
      ghost var moved := cells[..];
      ClearRow(rows - 1);
      fullRefresh := true;
      assert cells[..] == ScrollUp(t).cells;
    }

    /** `term_newline` */
    method BreakLine()
      requires Valid()
      modifies this, cells
      ensures Valid() && T() == Newline(old(T()))
    {
      x := 0;
      y := y + 1;
      if y >= rows {
        Scroll();
        y := rows - 1;
      }
    }

    /** The parameter loop of `term_process_escape`; the array never overflows. */
    method ReadParams() returns (params: array<nat>, count: nat)
      requires Valid() && 0 < escapeLen
      ensures fresh(params) && params.Length == 8 && count <= 8
      ensures params[..count] == Params(escape[1..escapeLen], [], 0, false)
      ensures forall i :: count <= i < 8 ==> params[i] == 0
    {
      params := new nat[8](_ => 0);
      count := 0;
      var num: nat, inNum, i := 0, false, 0;
      ghost var s := escape[1..escapeLen];
      assert s[0..] == s;
      while i < escapeLen - 1 && count < 8
        invariant i <= escapeLen - 1 && count <= 8 && params.Length == 8 && (count == 8 ==> !inNum) && fresh(params)
        invariant escape[1..escapeLen] == s
        invariant Params(s[i..], params[..count], num, inNum) == Params(s, [], 0, false)
        invariant forall j :: count <= j < 8 ==> params[j] == 0
      {
        var c := escape[1 + i];
        assert c == s[i] && s[i..][1..] == s[i + 1..];
        ghost var was := params[..count];
        if 48 <= c <= 57 {
          num := num * 10 + (c - 48);
          inNum := true;
        } else if c == 59 {
          if inNum {
            params[count] := num;
            count := count + 1;
            assert params[..count] == was + [num];
          }
          num, inNum := 0, false;
        }
        i := i + 1;
      }
      if inNum {
        ghost var was := params[..count];
        params[count] := num;
        count := count + 1;
        assert params[..count] == was + [num];
      }
    }

    method EraseRest()
      requires Valid() && 0 <= x < cols && 0 <= y < rows
      modifies cells
      ensures Valid() && T() == EraseToEnd(old(T()))
    {
      ghost var t := T();
      IndexInside(t, y, 0);
      TimesIs(y, cols);
      ghost var lo := Index(t, y, x);
      for col := x to cols
        invariant forall i :: 0 <= i < cells.Length ==>
          cells[i] == if lo <= i < Times(y, cols) + col then t.cells[i].(ch := SPACE) else t.cells[i]
      {
        var idx := y * cols + col;
        cells[idx] := cells[idx].(ch := SPACE);
      }
      assert cells[..] == EraseToEnd(t).cells;
    }

    method ClearScreen()
      requires Valid()
      modifies cells
      ensures Valid() && T() == ClearFrom(old(T()), 0)
    {
      ghost var t := T();
      for row := 0 to rows
        invariant Valid() && ClearFrom(T(), row) == ClearFrom(t, 0)
      {
        ClearRow(row);
      }
    }

    method SetColours(params: array<nat>, count: nat)
      requires Valid() && params.Length == 8 && count <= 8
      modifies this`fg, this`bg
      ensures Valid() && T() == Colours(old(T()), params[..count])
    {
      ghost var t, ps := T(), params[..count];
      assert ps[0..] == ps;
      for i := 0 to count
        invariant Valid() && Colours(T(), ps[i..]) == Colours(t, ps)
      {
        var p := params[i];
        assert p == ps[i] && ps[i..][1..] == ps[i + 1..];
        if p == 0 {
          fg, bg := 7, 0;
        } else if 30 <= p <= 37 {
          fg := p - 30;
        } else if 40 <= p <= 47 {
          bg := p - 40;
        } else if 90 <= p <= 97 {
          fg := p - 90 + 8;
        } else if 100 <= p <= 107 {
          bg := p - 100 + 8;
        }
      }
    }

    /** The command switch of `term_process_escape`. */
    method Execute(cmd: byte, params: array<nat>, count: nat)
      requires Valid() && 0 <= x < cols && 0 <= y < rows && escapeLen < 32
      requires params.Length == 8 && count <= 8 && forall i :: count <= i < 8 ==> params[i] == 0
      modifies this`x, this`y, this`fg, this`bg, cells
      ensures Valid() && T() == Command(old(T()), cmd, params[..count])
    {
      hide ClearFrom, EraseToEnd, Colours, Times;
      var first := params[0];
      var amount := if first > 0 then first else 1;
      if cmd == 65 {
        y := y - amount;
        if y < 0 { y := 0; }
      } else if cmd == 66 {
        y := y + amount;
        if y >= rows { y := rows - 1; }
      } else if cmd == 67 {
        x := x + amount;
        if x >= cols { x := cols - 1; }
      } else if cmd == 68 {
        x := x - amount;
        if x < 0 { x := 0; }
      } else if cmd == 72 || cmd == 102 {
        y := if first > 0 then first - 1 else 0;
        x := if count > 1 && params[1] > 0 then params[1] - 1 else 0;
        if y >= rows { y := rows - 1; }
        if x >= cols { x := cols - 1; }
      } else if cmd == 74 {
        if first == 2 {
          ClearScreen();
          x, y := 0, 0;
        }
      } else if cmd == 75 {
        EraseRest();
      } else if cmd == 109 {
        SetColours(params, count);
      }
    }

    /** `term_process_escape` */
    method FinishEscape()
      requires Valid() && 0 <= x < cols && 0 <= y < rows && 0 < escapeLen < 32
      modifies this, cells
      ensures Valid() && T() == ProcessEscape(old(T()))
    {
      hide Command, Params, Times;
      if escape[0] == 91 {
        var cmd := escape[escapeLen - 1];
        var params, count := ReadParams();
        assert T().esc[1..] == escape[1..escapeLen];
        Execute(cmd, params, count);
      }
      inEscape := false;
      escapeLen := 0;
    }

    /** `term_putc` */
    method PutByte(c: byte)
      requires Valid() && InBounds(T())
      modifies this, cells, escape
      ensures Valid() && T() == Putc(old(T()), c) && InBounds(T())
    {
      hide ProcessEscape, Newline, PutChar, Times;
      PutcInBounds(T(), c);
      if inEscape {
        ghost var t := T();
        escape[escapeLen] := c;
        escapeLen := escapeLen + 1;
        assert T() == t.(esc := t.esc + [c]);
        if (65 <= c <= 90) || (97 <= c <= 122) || c == 126 {
          FinishEscape();
        } else if escapeLen >= 31 {
          inEscape := false;
          escapeLen := 0;
        }
        return;
      }
      if c == 27 {
        inEscape := true;
        escapeLen := 0;
      } else if c == 10 {
        BreakLine();
      } else if c == 13 {
        x := 0;
      } else if c == 8 {
        if x > 0 { x := x - 1; }
      } else if c == 9 {
        x := (x + 8) / 8 * 8;
        if x >= cols { BreakLine(); }
      } else if 32 <= c < 127 {
        Print(c);
      }
    }

    method Print(c: byte)
      requires Valid() && InBounds(T())
      modifies this, cells
      ensures Valid() && T() == PutChar(old(T()), c)
    {
      hide Newline;
      IndexInside(T(), y, x);
      TimesIs(y, cols);
      var idx := y * cols + x;
      cells[idx] := Cell(c, fg, bg);
      x := x + 1;
      if x >= cols { BreakLine(); }
    }
  }

  lemma {:induction false} BlankSheet(rows: nat, cols: nat)
    ensures |Sheet(EmptyLines(rows), cols)| == Times(rows, cols)
    ensures forall i :: 0 <= i < Times(rows, cols) ==> Sheet(EmptyLines(rows), cols)[i] == Cell(SPACE, 7, 0)
  {
    if rows > 0 {
      BlankSheet(rows - 1, cols);
      assert EmptyLines(rows)[..rows - 1] == EmptyLines(rows - 1);
    }
  }
}
