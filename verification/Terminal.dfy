/** The terminal emulator: a byte-driven state machine over a grid of cells (section 5.4 of ECMA-48). */
module Terminal {
  import opened Bytes
  import opened Arith

  datatype Cell = Cell(ch: byte, fg: nat, bg: nat)

  /** Row `r`, column `c` is cell `r * cols + c`. `esc` holds the escape sequence collected so far. */
  datatype Term = Term(
    cells: seq<Cell>, cols: nat, rows: nat,
    x: int, y: int, fg: nat, bg: nat,
    inEscape: bool, esc: seq<byte>,
    dirty: bool)

  predicate Shaped(t: Term) {
    t.cols > 0 && t.rows > 0 && |t.cells| == Times(t.rows, t.cols)
  }

  /** The cursor is inside the grid and the escape buffer is not full. */
  predicate InBounds(t: Term) {
    Shaped(t) && 0 <= t.x < t.cols && 0 <= t.y < t.rows && |t.esc| < 31 && (!t.inEscape ==> t.esc == [])
  }

  const SPACE: byte := 32

  function Blank(t: Term): Cell { Cell(SPACE, t.fg, t.bg) }

  function Index(t: Term, row: nat, col: nat): nat { Times(row, t.cols) + col }

  lemma IndexInside(t: Term, row: nat, col: nat)
    requires Shaped(t) && row < t.rows && col < t.cols
    ensures Index(t, row, col) < |t.cells| && Times(row, t.cols) + t.cols <= |t.cells|
  {
    TimesMonotone(row + 1, t.rows, t.cols);
  }

  // Buffer operations

  function BlankRow(t: Term): (s: seq<Cell>)
    ensures |s| == t.cols
  {
    seq(t.cols, _ => Blank(t))
  }

  /** `term_clear_line` */
  function ClearLine(t: Term, row: nat): (r: Term)
    requires Shaped(t) && row < t.rows
    ensures Shaped(r)
  {
    IndexInside(t, row, 0);
    var at := Times(row, t.cols);
    t.(cells := t.cells[..at] + BlankRow(t) + t.cells[at + t.cols..])
  }

  /** `term_scroll_up` */
  function ScrollUp(t: Term): (r: Term)
    requires Shaped(t)
    ensures Shaped(r)
  {
    TimesMonotone(1, t.rows, t.cols);
    t.(cells := t.cells[t.cols..] + BlankRow(t), dirty := true)
  }

  /** `term_newline` */
  function Newline(t: Term): (r: Term)
    requires Shaped(t)
    ensures Shaped(r)
  {
    var u := t.(x := 0, y := t.y + 1);
    if u.y >= u.rows then ScrollUp(u).(y := u.rows - 1) else u
  }

  /** All lines from `row` on cleared. */
  function ClearFrom(t: Term, row: nat): (r: Term)
    requires Shaped(t) && row <= t.rows
    ensures Shaped(r) && r == t.(cells := r.cells)
    decreases t.rows - row
  {
    if row == t.rows then t else ClearFrom(ClearLine(t, row), row + 1)
  }

  /** The characters from the cursor to the end of the line become spaces; colours stay. */
  function EraseToEnd(t: Term): (r: Term)
    requires Shaped(t) && 0 <= t.x < t.cols && 0 <= t.y < t.rows
    ensures Shaped(r)
  {
    IndexInside(t, t.y, 0);
    var lo, hi := Index(t, t.y, t.x), Times(t.y, t.cols) + t.cols;
    t.(cells := seq(|t.cells|, i requires 0 <= i < |t.cells| =>
      if lo <= i < hi then t.cells[i].(ch := SPACE) else t.cells[i]))
  }

  // Control sequences

  predicate IsFinal(c: byte) { 65 <= c <= 90 || 97 <= c <= 122 || c == 126 }

  /** The numeric parameters of a control sequence, at most eight of them. */
  function Params(s: seq<byte>, params: seq<nat>, num: nat, inNum: bool): (r: seq<nat>)
    requires |params| <= 8 && (|params| == 8 ==> !inNum)
    ensures |r| <= 8
    decreases |s|
  {
    if s == [] || |params| == 8 then if inNum then params + [num] else params
    else if IsDigit(s[0]) then Params(s[1..], params, num * 10 + (s[0] - 48), true)
    else if s[0] == 59 then Params(s[1..], if inNum then params + [num] else params, 0, false)
    else Params(s[1..], params, num, inNum)
  }

  function Param(ps: seq<nat>, i: nat): nat { if i < |ps| then ps[i] else 0 }

  /** A movement count: absent or zero means one. */
  function Amount(ps: seq<nat>): nat { if Param(ps, 0) > 0 then Param(ps, 0) else 1 }

  function Clamp(v: int, size: nat): int {
    if v < 0 then 0 else if v >= size then size - 1 else v
  }

  /** One parameter of `SGR`. */
  function Colour(t: Term, p: nat): Term {
    if p == 0 then t.(fg := 7, bg := 0)
    else if 30 <= p <= 37 then t.(fg := p - 30)
    else if 40 <= p <= 47 then t.(bg := p - 40)
    else if 90 <= p <= 97 then t.(fg := p - 90 + 8)
    else if 100 <= p <= 107 then t.(bg := p - 100 + 8)
    else t
  }

  function Colours(t: Term, ps: seq<nat>): (r: Term)
    ensures r == t.(fg := r.fg, bg := r.bg)
    decreases |ps|
  {
    if ps == [] then t else Colours(Colour(t, ps[0]), ps[1..])
  }

  function Command(t: Term, cmd: byte, ps: seq<nat>): (r: Term)
    requires Shaped(t) && 0 <= t.x < t.cols && 0 <= t.y < t.rows && |t.esc| < 32
    ensures Shaped(r)
  {
    if cmd == 65 then t.(y := Clamp(t.y - Amount(ps), t.rows))
    else if cmd == 66 then t.(y := Clamp(t.y + Amount(ps), t.rows))
    else if cmd == 67 then t.(x := Clamp(t.x + Amount(ps), t.cols))
    else if cmd == 68 then t.(x := Clamp(t.x - Amount(ps), t.cols))
    else if cmd == 72 || cmd == 102 then
      t.(y := Clamp(if Param(ps, 0) > 0 then Param(ps, 0) - 1 else 0, t.rows),
         x := Clamp(if Param(ps, 1) > 0 then Param(ps, 1) - 1 else 0, t.cols))
    else if cmd == 74 then
      if Param(ps, 0) == 2 then ClearFrom(t, 0).(x := 0, y := 0) else t
    else if cmd == 75 then EraseToEnd(t)
    else if cmd == 109 then Colours(t, ps)
    else t
  }

  /** `term_process_escape` */
  function ProcessEscape(t: Term): (r: Term)
    requires Shaped(t) && 0 <= t.x < t.cols && 0 <= t.y < t.rows && 0 < |t.esc| < 32
    ensures Shaped(r)
  {
    var u := if t.esc[0] == 91 then Command(t, t.esc[|t.esc| - 1], Params(t.esc[1..], [], 0, false)) else t;
    u.(inEscape := false, esc := [])
  }

  // Output

  /** `term_putc` */
  function Putc(t: Term, c: byte): (r: Term)
    requires InBounds(t)
    ensures Shaped(r)
  {
    if t.inEscape then
      var u := t.(esc := t.esc + [c]);
      if IsFinal(c) then ProcessEscape(u)
      else if |u.esc| >= 31 then u.(inEscape := false, esc := [])
      else u
    else if c == 27 then t.(inEscape := true, esc := [])
    else if c == 10 then Newline(t)
    else if c == 13 then t.(x := 0)
    else if c == 8 then if t.x > 0 then t.(x := t.x - 1) else t
    else if c == 9 then
      var u := t.(x := (t.x + 8) / 8 * 8);
      if u.x >= u.cols then Newline(u) else u
    else if 32 <= c < 127 then PutChar(t, c)
    else t
  }

  function PutChar(t: Term, c: byte): (r: Term)
    requires InBounds(t)
    ensures Shaped(r)
  {
    IndexInside(t, t.y, t.x);
    var u := t.(cells := t.cells[Index(t, t.y, t.x) := Cell(c, t.fg, t.bg)], x := t.x + 1);
    if u.x >= u.cols then Newline(u) else u
  }

  lemma CommandInBounds(t: Term, cmd: byte, ps: seq<nat>)
    requires Shaped(t) && 0 <= t.x < t.cols && 0 <= t.y < t.rows && |t.esc| < 32
    ensures
      var r := Command(t, cmd, ps);
      Shaped(r) && r.cols == t.cols && r.rows == t.rows && 0 <= r.x < r.cols && 0 <= r.y < r.rows
  {
  }

  /** No byte whatsoever takes the cursor out of the grid or fills the escape buffer. */
  lemma PutcInBounds(t: Term, c: byte)
    requires InBounds(t)
    ensures InBounds(Putc(t, c)) && Putc(t, c).cols == t.cols && Putc(t, c).rows == t.rows
  {
    if t.inEscape && IsFinal(c) {
      var u := t.(esc := t.esc + [c]);
      if u.esc[0] == 91 {
        CommandInBounds(u, u.esc[|u.esc| - 1], Params(u.esc[1..], [], 0, false));
      }
    }
  }

  /** `term_puts` */
  function PutAll(t: Term, s: seq<byte>): (r: Term)
    requires InBounds(t)
    ensures InBounds(r) && r.cols == t.cols && r.rows == t.rows
    decreases |s|
  {
    if s == [] then t else
    var u := PutAll(t, s[..|s| - 1]);
    PutcInBounds(u, s[|s| - 1]);
    Putc(u, s[|s| - 1])
  }

  // What single bytes do

  /**
   * A line feed goes to the start of the next row; on the last row every row moves up by one and a row
   * of spaces in the current colours comes in.
   */
  lemma NewlineMeans(t: Term, row: nat, col: nat)
    requires InBounds(t) && !t.inEscape && row < t.rows && col < t.cols
    ensures
      var r := Putc(t, 10);
      && r.x == 0 && (t.y + 1 < t.rows ==> r == t.(x := 0, y := t.y + 1))
      && (t.y + 1 == t.rows ==>
            && r == t.(cells := r.cells, x := 0, dirty := true)
            && Times(row, t.cols) + col < |r.cells| && Times(row + 1, t.cols) == Times(row, t.cols) + t.cols
            && (row + 1 == t.rows ==> r.cells[Times(row, t.cols) + col] == Cell(32, t.fg, t.bg))
            && (row + 1 < t.rows ==>
                  && Times(row + 1, t.cols) + col < |t.cells|
                  && r.cells[Times(row, t.cols) + col] == t.cells[Times(row + 1, t.cols) + col]))
  {
    IndexInside(t, row, col);
    if t.y + 1 == t.rows && row + 1 < t.rows {
      IndexInside(t, row + 1, col);
    }
  }

  /**
   * A printable byte goes to the cursor's cell in the current colours, and the cursor one to the right;
   * behind the last column it goes on as after a line feed.
   */
  lemma PrintableMeans(t: Term, c: byte)
    requires InBounds(t) && !t.inEscape && 32 <= c < 127
    ensures
      var at := Times(t.y, t.cols) + t.x;
      && at < |t.cells|
      && var u := t.(cells := t.cells[at := Cell(c, t.fg, t.bg)]);
         Putc(t, c) == if t.x + 1 < t.cols then u.(x := t.x + 1) else Putc(u, 10)
  {
    IndexInside(t, t.y, t.x);
  }

  /** A tab goes to the next column divisible by eight, or on to the next row if there is none. */
  lemma TabMeans(t: Term)
    requires InBounds(t) && !t.inEscape
    ensures
      var r := Putc(t, 9);
      || (r == t.(x := r.x) && r.x % 8 == 0 && t.x < r.x <= t.x + 8)
      || (r == Putc(t, 10) && forall col :: t.x < col < t.cols ==> col % 8 != 0)
    ensures (exists col :: t.x < col < t.cols && col % 8 == 0) ==> Putc(t, 9).y == t.y && Putc(t, 9).x > t.x
  {
  }

  /** A carriage return goes to the first column and a backspace one to the left, if it can; no cell changes. */
  lemma BackMeans(t: Term)
    requires InBounds(t) && !t.inEscape
    ensures Putc(t, 13) == t.(x := 0)
    ensures Putc(t, 8) == t.(x := if t.x == 0 then 0 else t.x - 1)
  {
  }

  /** Typing over: a character, a backspace and another character leave what the second alone leaves. */
  lemma TypedOver(t: Term, a: byte, b: byte)
    requires InBounds(t) && !t.inEscape && t.x + 1 < t.cols && 32 <= a < 127 && 32 <= b < 127
    ensures PutAll(t, [a, 8, b]) == PutAll(t, [b])
  {
    hide Putc, Times;
    OneByOne(t, a, 8, b);
    PrintableMeans(t, a);
    PrintableMeans(t, b);
    var u := Putc(t, a);
    BackMeans(u);
    PrintableMeans(Putc(u, 8), b);
    var at := Times(t.y, t.cols) + t.x;
    assert t.cells[at := Cell(a, t.fg, t.bg)][at := Cell(b, t.fg, t.bg)] == t.cells[at := Cell(b, t.fg, t.bg)];
  }

  lemma OneByOne(t: Term, a: byte, b: byte, c: byte)
    requires InBounds(t)
    ensures InBounds(Putc(t, a)) && InBounds(Putc(Putc(t, a), b))
    ensures PutAll(t, [a, b, c]) == Putc(Putc(Putc(t, a), b), c) && PutAll(t, [c]) == Putc(t, c)
  {
    hide Putc;
    PutcInBounds(t, a);
    PutcInBounds(Putc(t, a), b);
    assert [a, b, c][..2] == [a, b] && [a, b][..1] == [a] && [a][..0] == [] && [c][..0] == [];
    assert PutAll(t, [a]) == Putc(t, a);
    assert PutAll(t, [a, b]) == Putc(Putc(t, a), b);
  }

  /** Every other byte outside a sequence is ignored, and an escape starts one. */
  lemma OtherBytes(t: Term, c: byte)
    requires InBounds(t) && !t.inEscape
    ensures (c < 32 && c != 8 && c != 9 && c != 10 && c != 13 && c != 27) || c >= 127 ==> Putc(t, c) == t
    ensures Putc(t, c).inEscape <==> c == 27
    ensures Putc(t, 27) == t.(inEscape := true)
  {
  }

  // Plain text is laid out as on endless paper

  /** The lines of a text on paper of unlimited length: a full line breaks at once. */
  function Lines(s: seq<byte>, cols: nat): (ls: seq<seq<byte>>)
    requires cols > 0
    ensures |ls| > 0 && forall i :: 0 <= i < |ls| ==> |ls[i]| <= cols
    ensures |ls[|ls| - 1]| < cols
    decreases |s|
  {
    if s == [] then [[]] else
    var ls, c := Lines(s[..|s| - 1], cols), s[|s| - 1];
    if c == 10 then ls + [[]] else
    var last := ls[|ls| - 1] + [c];
    var grown := ls[|ls| - 1 := last];
    if |last| == cols then grown + [[]] else grown
  }

  function EmptyLines(n: nat): (v: seq<seq<byte>>)
    ensures |v| == n && forall i :: 0 <= i < n ==> v[i] == []
  {
    seq(n, _ => [])
  }

  /** The part of the paper that `rows` rows show: its end, with blank rows below a short text. */
  function Shown(ls: seq<seq<byte>>, rows: nat): (v: seq<seq<byte>>)
    ensures |v| == rows
  {
    if |ls| <= rows then ls + EmptyLines(rows - |ls|) else ls[|ls| - rows..]
  }

  /** A line in the terminal's default colours, padded with spaces. */
  function Padded(line: seq<byte>, cols: nat): (s: seq<Cell>)
    ensures |s| == cols
  {
    seq(cols, i requires 0 <= i < cols => Cell(if i < |line| then line[i] else SPACE, 7, 0))
  }

  /** Rows one after the other. */
  function Sheet(v: seq<seq<byte>>, cols: nat): (s: seq<Cell>)
    ensures |s| == Times(|v|, cols)
  {
    if v == [] then [] else Sheet(v[..|v| - 1], cols) + Padded(v[|v| - 1], cols)
  }

  lemma {:induction false} SheetFirst(v: seq<seq<byte>>, cols: nat)
    requires v != []
    ensures Sheet(v, cols) == Padded(v[0], cols) + Sheet(v[1..], cols)
  {
    var n := |v| - 1;
    if n > 0 {
      SheetFirst(v[..n], cols);
      assert v[1..][..n - 1] == v[..n][1..];
    }
  }

  /** Appending a character to row `r` is writing one cell. */
  lemma {:induction false} SheetPut(v: seq<seq<byte>>, cols: nat, r: nat, c: byte)
    requires r < |v| && |v[r]| < cols
    ensures Times(r, cols) + |v[r]| < |Sheet(v, cols)|
    ensures Sheet(v, cols)[Times(r, cols) + |v[r]| := Cell(c, 7, 0)] == Sheet(v[r := v[r] + [c]], cols)
  {
    hide Padded;
    TimesMonotone(r + 1, |v|, cols);
    var n := |v| - 1;
    var w := v[r := v[r] + [c]];
    var head, row := Sheet(v[..n], cols), Padded(v[n], cols);
    if r < n {
      assert w[..n] == v[..n][r := v[r] + [c]];
      TimesMonotone(r + 1, n, cols);
      SheetPut(v[..n], cols, r, c);
      UpdateLeft(head, row, Times(r, cols) + |v[r]|, Cell(c, 7, 0));
    } else {
      assert w[..n] == v[..n];
      PaddedPut(v[n], cols, c);
      UpdateRight(head, row, |v[n]|, Cell(c, 7, 0));
    }
  }

  lemma PaddedPut(line: seq<byte>, cols: nat, c: byte)
    requires |line| < cols
    ensures Padded(line, cols)[|line| := Cell(c, 7, 0)] == Padded(line + [c], cols)
  {
  }

  lemma UpdateLeft(a: seq<Cell>, b: seq<Cell>, i: nat, x: Cell)
    requires i < |a|
    ensures (a + b)[i := x] == a[i := x] + b
  {
  }

  lemma UpdateRight(a: seq<Cell>, b: seq<Cell>, i: nat, x: Cell)
    requires i < |b|
    ensures (a + b)[|a| + i := x] == a + b[i := x]
  {
  }

  /** Scrolling drops the first row and opens a blank one. */
  lemma SheetScroll(v: seq<seq<byte>>, cols: nat)
    requires v != []
    ensures cols <= |Sheet(v, cols)|
    ensures Sheet(v, cols)[cols..] + Padded([], cols) == Sheet(v[1..] + [[]], cols)
  {
    SheetFirst(v, cols);
    var w := v[1..] + [[]];
    assert w[..|w| - 1] == v[1..];
  }

  predicate Plain(c: byte) { c == 10 || 32 <= c < 127 }

  /** A terminal as `term_create` leaves it before its greeting. */
  ghost predicate Fresh(t: Term) {
    && InBounds(t) && t.x == 0 && t.y == 0 && t.fg == 7 && t.bg == 0 && !t.inEscape
    && t.cells == Sheet(EmptyLines(t.rows), t.cols)
  }

  /** The terminal shows the end of these lines, with the cursor behind the last one. */
  ghost predicate Shows(t: Term, ls: seq<seq<byte>>) {
    && InBounds(t) && !t.inEscape && t.fg == 7 && t.bg == 0 && |ls| > 0
    && t.cells == Sheet(Shown(ls, t.rows), t.cols)
    && t.x == |ls[|ls| - 1]| && t.y == (if |ls| <= t.rows then |ls| - 1 else t.rows - 1)
  }

  lemma BreakShows(t: Term, ls: seq<seq<byte>>)
    requires Shaped(t) && 0 <= t.y < t.rows && t.fg == 7 && t.bg == 0 && !t.inEscape && t.esc == [] && |ls| > 0
    requires t.cells == Sheet(Shown(ls, t.rows), t.cols)
    requires t.y == if |ls| <= t.rows then |ls| - 1 else t.rows - 1
    ensures Shows(Newline(t), ls + [[]])
  {
    var v := Shown(ls, t.rows);
    ShownBreak(ls, t.rows);
    if |ls| >= t.rows {
      SheetScroll(v, t.cols);
      assert BlankRow(t) == Padded([], t.cols);
    }
  }

  lemma ShownBreak(ls: seq<seq<byte>>, rows: nat)
    requires rows > 0
    ensures Shown(ls + [[]], rows) == if |ls| < rows then Shown(ls, rows) else Shown(ls, rows)[1..] + [[]]
  {
    var a, b := Shown(ls + [[]], rows), Shown(ls, rows);
    if |ls| < rows {
      assert forall i :: 0 <= i < rows ==> a[i] == b[i];
    } else {
      assert forall i :: 0 <= i < rows - 1 ==> a[i] == ls[|ls| + 1 - rows + i] == b[i + 1];
    }
  }

  lemma CharShows(t: Term, ls: seq<seq<byte>>, c: byte)
    requires Shows(t, ls) && 32 <= c < 127 && |ls[|ls| - 1]| < t.cols
    ensures
      var last := ls[|ls| - 1] + [c];
      var grown := ls[|ls| - 1 := last];
      Shows(Putc(t, c), if |last| == t.cols then grown + [[]] else grown)
  {
    hide Newline;
    var n := |ls| - 1;
    var last := ls[n] + [c];
    var grown := ls[n := last];
    assert Plain(c) && c != 27 && c != 10 && c != 13 && c != 8 && c != 9;
    var v := Shown(ls, t.rows);
    assert v[t.y] == ls[n];
    IndexInside(t, t.y, t.x);
    SheetPut(v, t.cols, t.y, c);
    assert Shown(grown, t.rows) == v[t.y := last];
    var u := t.(cells := t.cells[Index(t, t.y, t.x) := Cell(c, 7, 0)], x := t.x + 1);
    if |last| == t.cols {
      BreakShows(u, grown);
    }
  }

  /** The grid is always the last rows of the text as laid out on endless paper. */
  lemma {:induction false} TextShows(t: Term, s: seq<byte>)
    requires Fresh(t) && forall i :: 0 <= i < |s| ==> Plain(s[i])
    ensures Shows(PutAll(t, s), Lines(s, t.cols))
    decreases |s|
  {
    hide Putc, Shows, Newline;
    if s == [] {
      FreshShows(t);
    } else {
      var c := s[|s| - 1];
      TextShows(t, s[..|s| - 1]);
      var u := PutAll(t, s[..|s| - 1]);
      var ls := Lines(s[..|s| - 1], t.cols);
      if c == 10 {
        NewlineShows(u, ls);
      } else {
        CharShows(u, ls, c);
      }
    }
  }

  lemma FreshShows(t: Term)
    requires Fresh(t)
    ensures Shows(t, [[]])
  {
    assert Shown([[]], t.rows) == EmptyLines(t.rows);
  }

  lemma NewlineShows(t: Term, ls: seq<seq<byte>>)
    requires Shows(t, ls)
    ensures Shows(Putc(t, 10), ls + [[]])
  {
    BreakShows(t, ls);
  }
}
