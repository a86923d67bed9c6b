/**
 * Drawing the terminal. A render repaints only the cells that differ from the previous copy, the cell
 * under the old cursor and the new cursor; it is to leave the picture that a full redraw leaves.
 *
 * Every drawing call acts on each pixel by itself, so a call is modelled as the colour it makes of a
 * pixel's colour.
 */
module TerminalRender {
  import opened Bytes
  import opened Arith
  import opened Terminal

  type Colour = nat

  /** Whether the glyph of a character has ink at a row and a column. */
  type Font = (byte, nat, nat) -> bool

  /** A pixel of the target, counted from its top left corner. */
  datatype Pixel = Pixel(x: int, y: int)

  /** The drawing target: its size, and the screen position of its corner. */
  datatype Target = Target(width: nat, height: nat, ox: int, oy: int)

  /** All that a picture of the terminal depends on. */
  datatype Frame = Frame(
    cells: seq<Cell>, cols: nat, rows: nat,
    cx: int, cy: int, visible: bool,
    px: int, py: int)

  const PALETTE: seq<Colour> := [
    0x1E1E2E, 0xF38BA8, 0xA6E3A1, 0xF9E2AF, 0x89B4FA, 0xCBA6F7, 0x94E2D5, 0xCDD6F4,
    0x585B70, 0xF38BA8, 0xA6E3A1, 0xF9E2AF, 0x89B4FA, 0xCBA6F7, 0x94E2D5, 0xFFFFFF]

  function Palette(c: nat): Colour { PALETTE[c % 16] }

  predicate Framed(f: Frame) {
    f.cols > 0 && f.rows > 0 && |f.cells| == Times(f.rows, f.cols) && 0 <= f.cx < f.cols && 0 <= f.cy < f.rows
  }

  predicate OnTarget(g: Target, p: Pixel) { 0 <= p.x < g.width && 0 <= p.y < g.height }

  // The picture

  /** Distances of a pixel from the first cell's corner. */
  function Dx(g: Target, f: Frame, p: Pixel): int { p.x + g.ox - f.px - 4 }
  function Dy(g: Target, f: Frame, p: Pixel): int { p.y + g.oy - f.py - 4 }

  predicate InContent(g: Target, f: Frame, p: Pixel) {
    -4 <= Dx(g, f, p) < f.cols * 8 + 4 && -4 <= Dy(g, f, p) < f.rows * 16 + 4
  }

  predicate InGrid(g: Target, f: Frame, p: Pixel) {
    0 <= Dx(g, f, p) < f.cols * 8 && 0 <= Dy(g, f, p) < f.rows * 16
  }

  predicate InCell(g: Target, f: Frame, row: int, col: int, p: Pixel) {
    col * 8 <= Dx(g, f, p) < col * 8 + 8 && row * 16 <= Dy(g, f, p) < row * 16 + 16
  }

  /** The cell lies wholly on the target; characters of other cells are not drawn at all. */
  predicate Whole(g: Target, f: Frame, row: int, col: int) {
    var tx, ty := f.px + 4 + col * 8 - g.ox, f.py + 4 + row * 16 - g.oy;
    0 <= tx && tx + 8 <= g.width && 0 <= ty && ty + 16 <= g.height
  }

  predicate Hidden(g: Target, f: Frame, row: int, col: int) {
    var tx, ty := f.px + 4 + col * 8 - g.ox, f.py + 4 + row * 16 - g.oy;
    tx + 8 <= 0 || g.width <= tx || ty + 16 <= 0 || g.height <= ty || g.width == 0 || g.height == 0
  }

  /** The target's edge runs through the cell. */
  predicate Straddles(g: Target, f: Frame, row: int, col: int) { !Whole(g, f, row, col) && !Hidden(g, f, row, col) }

  /** A pixel of the cell that is on the target, if there is one. */
  function Corner(g: Target, f: Frame, row: int, col: int): Pixel {
    var tx, ty := f.px + 4 + col * 8 - g.ox, f.py + 4 + row * 16 - g.oy;
    Pixel(if tx < 0 then 0 else tx, if ty < 0 then 0 else ty)
  }

  /** A hidden cell has no pixel on the target; any other has one. */
  lemma HiddenMeans(g: Target, f: Frame, row: int, col: int, p: Pixel)
    ensures !Hidden(g, f, row, col) ==> OnTarget(g, Corner(g, f, row, col)) && InCell(g, f, row, col, Corner(g, f, row, col))
    ensures OnTarget(g, p) && InCell(g, f, row, col, p) ==> !Hidden(g, f, row, col)
  {
  }

  function Ink(font: Font, cell: Cell, dx: int, dy: int): Colour
    requires dx >= 0 && dy >= 0
  {
    if font(cell.ch, dy % 16, dx % 8) then Palette(cell.fg) else Palette(cell.bg)
  }

  /** The colour that the terminal's picture has at a pixel of its content rectangle. */
  function Image(g: Target, font: Font, f: Frame, p: Pixel): Colour
    requires Framed(f)
  {
    var dx, dy := Dx(g, f, p), Dy(g, f, p);
    if !InGrid(g, f, p) then Palette(0)
    else
      var row, col := dy / 16, dx / 8;
      CellInside(f, row, col);
      if f.visible && row == f.cy && col == f.cx then Palette(7)
      else if Whole(g, f, row, col) then Ink(font, f.cells[Times(row, f.cols) + col], dx, dy)
      else Palette(0)
  }

  lemma CellInside(f: Frame, row: nat, col: nat)
    requires |f.cells| == Times(f.rows, f.cols) && row < f.rows && col < f.cols
    ensures Times(row, f.cols) + col < |f.cells|
  {
    TimesMonotone(row + 1, f.rows, f.cols);
  }

  // The drawing calls

  /** `gui_draw_rect` on a pixel of the target; what is clipped away never reaches one. */
  function RectOn(g: Target, x: int, y: int, w: int, h: int, c: Colour, p: Pixel, k: Colour): Colour {
    if x - g.ox <= p.x < x - g.ox + w && y - g.oy <= p.y < y - g.oy + h then c else k
  }

  /** `gui_draw_char`: all of the character's box, or nothing. */
  function CharOn(g: Target, font: Font, x: int, y: int, cell: Cell, p: Pixel, k: Colour): Colour {
    var tx, ty := x - g.ox, y - g.oy;
    if tx < 0 || tx + 8 > g.width || ty < 0 || ty + 16 > g.height then k
    else if tx <= p.x < tx + 8 && ty <= p.y < ty + 16 then
      if font(cell.ch, p.y - ty, p.x - tx) then Palette(cell.fg) else Palette(cell.bg)
    else k
  }

  /** Drawing cell `i`. */
  function CellOn(g: Target, font: Font, f: Frame, i: nat, p: Pixel, k: Colour): Colour
    requires f.cols > 0 && i < |f.cells|
  {
    CharOn(g, font, f.px + 4 + Rem(i, f.cols) * 8, f.py + 4 + Quot(i, f.cols) * 16, f.cells[i], p, k)
  }

  predicate Drawn(now: Frame, last: Frame, full: bool, i: nat)
    requires i < |now.cells| == |last.cells|
  {
    full || now.cells[i] != last.cells[i]
  }

  /** The first `n` cells, those not drawn left as they are. */
  function CellsOn(g: Target, font: Font, now: Frame, last: Frame, full: bool, n: nat, p: Pixel, k: Colour): Colour
    requires now.cols > 0 && n <= |now.cells| == |last.cells|
  {
    if n == 0 then k else
    var below := CellsOn(g, font, now, last, full, n - 1, p, k);
    if Drawn(now, last, full, n - 1) then CellOn(g, font, now, n - 1, p, below) else below
  }

  function BackgroundOn(g: Target, f: Frame, p: Pixel, k: Colour): Colour {
    RectOn(g, f.px, f.py, f.cols * 8 + 8, f.rows * 16 + 8, Palette(0), p, k)
  }

  /** The cell under the old cursor, redrawn with its present contents. */
  function OldCursorOn(g: Target, font: Font, now: Frame, last: Frame, p: Pixel, k: Colour): Colour
    requires Framed(now) && Framed(last) && SameShape(now, last)
  {
    if !last.visible then k else
    CellInside(now, last.cy, last.cx);
    CharOn(g, font, now.px + 4 + last.cx * 8, now.py + 4 + last.cy * 16, now.cells[Times(last.cy, now.cols) + last.cx], p, k)
  }

  function CursorOn(g: Target, f: Frame, p: Pixel, k: Colour): Colour {
    if f.visible then RectOn(g, f.px + 4 + f.cx * 8, f.py + 4 + f.cy * 16, 8, 16, Palette(7), p, k) else k
  }

  predicate SameShape(a: Frame, b: Frame) { a.cols == b.cols && a.rows == b.rows }

  /** `term_render` on one pixel. */
  function RenderOn(g: Target, font: Font, now: Frame, last: Frame, full: bool, p: Pixel, k: Colour): Colour
    requires Framed(now) && Framed(last) && SameShape(now, last)
  {
    var k0 := if full then BackgroundOn(g, now, p, k) else k;
    var k1 := CellsOn(g, font, now, last, full, |now.cells|, p, k0);
    CursorOn(g, now, p, OldCursorOn(g, font, now, last, p, k1))
  }

  // What the calls leave

  /** Drawing cell (`row`, `col`) paints exactly its pixels, and only if it is whole. */
  lemma CellPixels(g: Target, font: Font, f: Frame, row: nat, col: nat, cell: Cell, p: Pixel, k: Colour)
    requires row < f.rows && col < f.cols
    ensures CharOn(g, font, f.px + 4 + col * 8, f.py + 4 + row * 16, cell, p, k)
         == if Whole(g, f, row, col) && InCell(g, f, row, col, p) then Ink(font, cell, Dx(g, f, p), Dy(g, f, p)) else k
  {
    var dx, dy := Dx(g, f, p), Dy(g, f, p);
    if InCell(g, f, row, col, p) {
      assert dx % 8 == dx - col * 8 && dy % 16 == dy - row * 16;
    }
  }

  /** Whether pixel `p` is in the cell numbered `i`. */
  predicate At(g: Target, f: Frame, i: nat, p: Pixel)
    requires f.cols > 0
  {
    InGrid(g, f, p) && i == Times(Dy(g, f, p) / 16, f.cols) + Dx(g, f, p) / 8
  }

  /** The flat number of a cell and its place on the grid agree. */
  lemma AtMeans(g: Target, f: Frame, i: nat, p: Pixel)
    requires Framed(f) && i < |f.cells|
    ensures Quot(i, f.cols) < f.rows
    ensures At(g, f, i, p) <==> InCell(g, f, Quot(i, f.cols), Rem(i, f.cols), p)
    ensures At(g, f, i, p) ==> Quot(i, f.cols) == Dy(g, f, p) / 16 && Rem(i, f.cols) == Dx(g, f, p) / 8
  {
    QuotRem(i, f.cols);
    QuotBelow(i, f.cols, f.rows);
    if At(g, f, i, p) {
      QuotUnique(Dy(g, f, p) / 16, f.cols, Dx(g, f, p) / 8);
    }
  }

  /** Only the pixel's own cell decides its colour. */
  lemma {:induction false} CellsOnMeans(g: Target, font: Font, now: Frame, last: Frame, full: bool, n: nat, p: Pixel,
                                        k: Colour, i: nat)
    requires Framed(now) && n <= |now.cells| == |last.cells| && i < |now.cells| && At(g, now, i, p)
    ensures CellsOn(g, font, now, last, full, n, p, k)
         == if i < n && Drawn(now, last, full, i) && Whole(g, now, Dy(g, now, p) / 16, Dx(g, now, p) / 8)
            then Ink(font, now.cells[i], Dx(g, now, p), Dy(g, now, p)) else k
  {
    if n > 0 {
      CellsOnMeans(g, font, now, last, full, n - 1, p, k, i);
      var below := CellsOn(g, font, now, last, full, n - 1, p, k);
      AtMeans(g, now, n - 1, p);
      CellPixels(g, font, now, Quot(n - 1, now.cols), Rem(n - 1, now.cols), now.cells[n - 1], p, below);
    }
  }

  /** No cell paints outside the grid. */
  lemma {:induction false} CellsOnOutside(g: Target, font: Font, now: Frame, last: Frame, full: bool, n: nat,
                                          p: Pixel, k: Colour)
    requires Framed(now) && n <= |now.cells| == |last.cells| && !InGrid(g, now, p)
    ensures CellsOn(g, font, now, last, full, n, p, k) == k
  {
    if n > 0 {
      CellsOnOutside(g, font, now, last, full, n - 1, p, k);
      AtMeans(g, now, n - 1, p);
      CellPixels(g, font, now, Quot(n - 1, now.cols), Rem(n - 1, now.cols), now.cells[n - 1], p, k);
    }
  }

  /** The cell a pixel of the grid lies in. */
  function CellAt(g: Target, f: Frame, p: Pixel): (i: nat)
    requires Framed(f) && InGrid(g, f, p)
    ensures i < |f.cells| && At(g, f, i, p)
  {
    CellInside(f, Dy(g, f, p) / 16, Dx(g, f, p) / 8);
    Times(Dy(g, f, p) / 16, f.cols) + Dx(g, f, p) / 8
  }

  /** Nothing outside the content rectangle changes. */
  lemma RenderOutside(g: Target, font: Font, now: Frame, last: Frame, full: bool, p: Pixel, k: Colour)
    requires Framed(now) && Framed(last) && SameShape(now, last) && !InContent(g, now, p)
    ensures RenderOn(g, font, now, last, full, p, k) == k
  {
    CellsOnOutside(g, font, now, last, full, |now.cells|, p, k);
    if last.visible {
      CellPixels(g, font, now, last.cy, last.cx, now.cells[OldCell(now, last)], p, k);
    }
  }

  function OldCell(now: Frame, last: Frame): (i: nat)
    requires Framed(now) && Framed(last) && SameShape(now, last)
    ensures i < |now.cells|
  {
    CellInside(now, last.cy, last.cx);
    Times(last.cy, now.cols) + last.cx
  }

  /** A full redraw leaves the picture, whatever was there. */
  lemma FullRedraw(g: Target, font: Font, now: Frame, last: Frame, p: Pixel, k: Colour)
    requires Framed(now) && Framed(last) && SameShape(now, last) && OnTarget(g, p) && InContent(g, now, p)
    ensures RenderOn(g, font, now, last, true, p, k) == Image(g, font, now, p)
  {
    hide CharOn, CellsOn, Ink, Whole, Times, Quot, Rem;
    var k0 := BackgroundOn(g, now, p, k);
    var k1 := CellsOn(g, font, now, last, true, |now.cells|, p, k0);
    if InGrid(g, now, p) {
      CellsOnMeans(g, font, now, last, true, |now.cells|, p, k0, CellAt(g, now, p));
    } else {
      CellsOnOutside(g, font, now, last, true, |now.cells|, p, k0);
    }
    if last.visible {
      CellPixels(g, font, now, last.cy, last.cx, now.cells[OldCell(now, last)], p, k1);
    }
  }

  /**
   * The old cursor can be wiped out: its cell is not cut by the target's edge, where no character
   * is drawn, or the cursor is still there, or there was none.
   */
  predicate Erasable(g: Target, now: Frame, last: Frame) {
    !last.visible || !Straddles(g, now, last.cy, last.cx) ||
    (now.visible && now.cx == last.cx && now.cy == last.cy)
  }

  predicate SamePlace(a: Frame, b: Frame) { SameShape(a, b) && a.px == b.px && a.py == b.py }

  /** An incremental redraw over the last picture leaves the new picture at this pixel... */
  lemma IncrementalPixel(g: Target, font: Font, now: Frame, last: Frame, p: Pixel, k: Colour)
    requires Framed(now) && Framed(last) && SamePlace(now, last) && OnTarget(g, p) && InContent(g, now, p)
    requires k == Image(g, font, last, p)
    requires Erasable(g, now, last) || !InCell(g, now, last.cy, last.cx, p)
    ensures RenderOn(g, font, now, last, false, p, k) == Image(g, font, now, p)
  {
    hide CharOn, CellsOn, Ink, Times, Quot, Rem;
    var k1 := CellsOn(g, font, now, last, false, |now.cells|, p, k);
    if InGrid(g, now, p) {
      CellsOnMeans(g, font, now, last, false, |now.cells|, p, k, CellAt(g, now, p));
    } else {
      CellsOnOutside(g, font, now, last, false, |now.cells|, p, k);
    }
    if last.visible {
      CellPixels(g, font, now, last.cy, last.cx, now.cells[OldCell(now, last)], p, k1);
    }
  }

  /** ...and where the old cursor cannot be wiped out, its colour stays. */
  lemma CursorRemains(g: Target, font: Font, now: Frame, last: Frame, p: Pixel)
    requires Framed(now) && Framed(last) && SamePlace(now, last) && OnTarget(g, p)
    requires !Erasable(g, now, last) && InCell(g, now, last.cy, last.cx, p)
    ensures InContent(g, now, p)
    ensures RenderOn(g, font, now, last, false, p, Image(g, font, last, p)) == Palette(7) != Image(g, font, now, p)
  {
    hide CharOn, CellsOn, Ink, Times, Quot, Rem;
    var k := Image(g, font, last, p);
    assert k == Palette(7);
    CellsOnMeans(g, font, now, last, false, |now.cells|, p, k, CellAt(g, now, p));
    CellPixels(g, font, now, last.cy, last.cx, now.cells[OldCell(now, last)], p, k);
  }

  // Whole runs

  type Surface = Pixel -> Colour

  /** The surface shows the picture of a frame. */
  ghost predicate Pictured(g: Target, font: Font, s: Surface, f: Frame)
    requires Framed(f)
  {
    forall p: Pixel :: OnTarget(g, p) && InContent(g, f, p) ==> s(p) == Image(g, font, f, p)
  }

  /** The terminal with its position, its copy of what was last drawn, and the target's pixels. */
  datatype State = State(t: Term, visible: bool, px: int, py: int, last: Frame, s: Surface)

  function Now(st: State): Frame {
    Frame(st.t.cells, st.t.cols, st.t.rows, st.t.x, st.t.y, st.visible, st.px, st.py)
  }

  predicate Full(st: State) { st.t.dirty || st.px != st.last.px || st.py != st.last.py }

  predicate Wellformed(st: State) {
    InBounds(st.t) && Framed(Now(st)) && Framed(st.last) && SameShape(Now(st), st.last)
  }

  /** Unless a full redraw is due, the target shows the last frame. */
  ghost predicate Inv(g: Target, font: Font, st: State) {
    Wellformed(st) && (!Full(st) ==> Pictured(g, font, st.s, st.last))
  }

  datatype Event = Output(c: byte) | MoveTo(x: int, y: int) | Render

  function Rendered(g: Target, font: Font, st: State): State
    requires Wellformed(st)
  {
    st.(t := st.t.(dirty := false), last := Now(st),
        s := (p: Pixel) => RenderOn(g, font, Now(st), st.last, Full(st), p, st.s(p)))
  }

  function Step(g: Target, font: Font, st: State, e: Event): (r: State)
    requires Wellformed(st)
    ensures Wellformed(r)
  {
    match e
    case Output(c) =>
      PutcInBounds(st.t, c);
      st.(t := Putc(st.t, c))
    case MoveTo(x, y) =>
      st.(t := st.t.(dirty := st.t.dirty || x != st.px || y != st.py), px := x, py := y)
    case Render => Rendered(g, font, st)
  }

  function Run(g: Target, font: Font, st: State, es: seq<Event>): (r: State)
    requires Wellformed(st)
    ensures Wellformed(r)
    decreases |es|
  {
    if es == [] then st else Step(g, font, Run(g, font, st, es[..|es| - 1]), es[|es| - 1])
  }

  /** The state that `term_create` leaves; the target holds anything. */
  ghost predicate Created(st: State) {
    Fresh(st.t) && InBounds(st.t) && st.t.dirty && Framed(st.last) && SameShape(Now(st), st.last) && !st.last.visible
  }

  /**
   * One render, exactly: it leaves the picture of the present cells and cursor, the one a full redraw
   * leaves, if and only if a full redraw is due or the old cursor can be wiped out.
   */
  lemma RenderRefines(g: Target, font: Font, st: State)
    requires Inv(g, font, st)
    ensures Pictured(g, font, Rendered(g, font, st).s, Now(st)) <==> Full(st) || Erasable(g, Now(st), st.last)
    ensures forall p: Pixel :: !InContent(g, Now(st), p) ==> Rendered(g, font, st).s(p) == st.s(p)
  {
    hide RenderOn, Image;
    var now, last, s := Now(st), st.last, Rendered(g, font, st).s;
    forall p: Pixel | !InContent(g, now, p) ensures s(p) == st.s(p) {
      RenderOutside(g, font, now, last, Full(st), p, st.s(p));
    }
    if Full(st) || Erasable(g, now, last) {
      forall p: Pixel | OnTarget(g, p) && InContent(g, now, p) ensures s(p) == Image(g, font, now, p) {
        if Full(st) {
          FullRedraw(g, font, now, last, p, st.s(p));
        } else {
          IncrementalPixel(g, font, now, last, p, st.s(p));
        }
      }
    } else {
      var p := Corner(g, now, last.cy, last.cx);
      HiddenMeans(g, now, last.cy, last.cx, p);
      CursorRemains(g, font, now, last, p);
    }
  }

  // Cursors that stay behind

  /** Where the cursor is drawn, as column and row. */
  function CursorMark(f: Frame): set<(int, int)> { if f.visible then {(f.cx, f.cy)} else {} }

  /** The cells that held the cursor at a render since the last full redraw, that one included. */
  ghost function Marks(g: Target, font: Font, st: State, es: seq<Event>): set<(int, int)>
    requires Wellformed(st)
    decreases |es|
  {
    if es == [] then {} else
    var u, before := Run(g, font, st, es[..|es| - 1]), Marks(g, font, st, es[..|es| - 1]);
    if !es[|es| - 1].Render? then before
    else if Full(u) then CursorMark(Now(u))
    else before + CursorMark(Now(u))
  }

  /** The picture with the cursor's colour left in the marked cells that the target's edge cuts. */
  function Smudged(g: Target, font: Font, f: Frame, marks: set<(int, int)>, p: Pixel): Colour
    requires Framed(f)
  {
    var row, col := Dy(g, f, p) / 16, Dx(g, f, p) / 8;
    if InGrid(g, f, p) && Straddles(g, f, row, col) && (col, row) in marks then Palette(7) else Image(g, font, f, p)
  }

  /** An incremental redraw adds the new cursor's cell to the marks, and is right everywhere else. */
  lemma SmudgedPixel(g: Target, font: Font, now: Frame, last: Frame, marks: set<(int, int)>, p: Pixel)
    requires Framed(now) && Framed(last) && SamePlace(now, last) && OnTarget(g, p) && InContent(g, now, p)
    requires CursorMark(last) <= marks
    ensures RenderOn(g, font, now, last, false, p, Smudged(g, font, last, marks, p))
         == Smudged(g, font, now, marks + CursorMark(now), p)
  {
    hide CharOn, CellsOn, Ink, Times, Quot, Rem;
    var row, col, k := Dy(g, now, p) / 16, Dx(g, now, p) / 8, Smudged(g, font, last, marks, p);
    HiddenMeans(g, now, row, col, p);
    if InGrid(g, now, p) && Straddles(g, now, row, col) {
      CellsOnMeans(g, font, now, last, false, |now.cells|, p, k, CellAt(g, now, p));
      if last.visible {
        CellPixels(g, font, now, last.cy, last.cx, now.cells[OldCell(now, last)], p, k);
      }
    } else {
      IncrementalPixel(g, font, now, last, p, k);
    }
  }

  lemma FreshMarks(g: Target, font: Font, f: Frame, p: Pixel)
    requires Framed(f)
    ensures Smudged(g, font, f, CursorMark(f), p) == Image(g, font, f, p)
  {
  }

  ghost predicate Smeared(g: Target, font: Font, s: Surface, f: Frame, marks: set<(int, int)>)
    requires Framed(f)
  {
    forall p: Pixel :: OnTarget(g, p) && InContent(g, f, p) ==> s(p) == Smudged(g, font, f, marks, p)
  }

  /** Unless a full redraw is due, the target shows the last frame, smudged by the marks. */
  ghost predicate RunInv(g: Target, font: Font, st: State, marks: set<(int, int)>) {
    Wellformed(st) && (!Full(st) ==> CursorMark(st.last) <= marks && Smeared(g, font, st.s, st.last, marks))
  }

  lemma RenderSmears(g: Target, font: Font, st: State, marks: set<(int, int)>)
    requires RunInv(g, font, st, marks)
    ensures Smeared(g, font, Rendered(g, font, st).s, Now(st),
                    if Full(st) then CursorMark(Now(st)) else marks + CursorMark(Now(st)))
  {
    hide RenderOn, Image, Smudged;
    var now, last, s := Now(st), st.last, Rendered(g, font, st).s;
    forall p: Pixel | OnTarget(g, p) && InContent(g, now, p)
      ensures s(p) == Smudged(g, font, now, if Full(st) then CursorMark(now) else marks + CursorMark(now), p)
    {
      if Full(st) {
        FullRedraw(g, font, now, last, p, st.s(p));
        FreshMarks(g, font, now, p);
      } else {
        SmudgedPixel(g, font, now, last, marks, p);
      }
    }
  }

  /** Over any run of outputs, moves and renders. */
  lemma {:induction false} RunSmears(g: Target, font: Font, st: State, es: seq<Event>)
    requires Created(st)
    ensures RunInv(g, font, Run(g, font, st, es), Marks(g, font, st, es))
    decreases |es|
  {
    hide Putc, RenderOn, Image, Smudged, Smeared;
    if es != [] {
      var u, e := Run(g, font, st, es[..|es| - 1]), es[|es| - 1];
      var marks := Marks(g, font, st, es[..|es| - 1]);
      RunSmears(g, font, st, es[..|es| - 1]);
      match e
      case Output(c) => PutcDirty(u.t, c);
      case MoveTo(x, y) =>
      case Render => RenderSmears(g, font, u, marks);
    }
  }

  /** Output never withdraws a refresh that is due. */
  lemma PutcDirty(t: Term, c: byte)
    requires InBounds(t)
    ensures t.dirty ==> Putc(t, c).dirty
  {
  }

  /** Every marked cell that the target's edge cuts is the one the cursor is in. */
  predicate Spotless(g: Target, f: Frame, marks: set<(int, int)>) {
    forall m :: m in marks && Straddles(g, f, m.1, m.0) ==> m in CursorMark(f)
  }

  lemma SpotlessExactly(g: Target, font: Font, s: Surface, f: Frame, marks: set<(int, int)>)
    requires Framed(f) && Smeared(g, font, s, f, marks)
    requires forall m :: m in marks ==> 0 <= m.0 < f.cols && 0 <= m.1 < f.rows
    ensures Pictured(g, font, s, f) <==> Spotless(g, f, marks)
  {
    hide Ink, Times, Whole, Hidden;
    if Spotless(g, f, marks) {
      forall p: Pixel | OnTarget(g, p) && InContent(g, f, p) ensures s(p) == Image(g, font, f, p) {
        assert s(p) == Smudged(g, font, f, marks, p);
      }
    } else {
      var m :| m in marks && Straddles(g, f, m.1, m.0) && m !in CursorMark(f);
      var p := Corner(g, f, m.1, m.0);
      HiddenMeans(g, f, m.1, m.0, p);
      assert s(p) == Smudged(g, font, f, marks, p) == Palette(7) != Image(g, font, f, p);
    }
  }

  lemma {:induction false} MarksInside(g: Target, font: Font, st: State, es: seq<Event>)
    requires Wellformed(st)
    ensures Run(g, font, st, es).t.cols == st.t.cols && Run(g, font, st, es).t.rows == st.t.rows
    ensures forall m :: m in Marks(g, font, st, es) ==> 0 <= m.0 < st.t.cols && 0 <= m.1 < st.t.rows
    decreases |es|
  {
    hide Putc, RenderOn;
    if es != [] {
      MarksInside(g, font, st, es[..|es| - 1]);
      var u := Run(g, font, st, es[..|es| - 1]);
      match es[|es| - 1]
      case Output(c) => PutcInBounds(u.t, c);
      case _ =>
    }
  }

  /**
   * Any run of outputs, moves and renders that ends in a render leaves the picture of the terminal as
   * it then is if and only if every cell that is cut by the target's edge and held the cursor at a
   * render since the last full redraw holds the cursor now.
   */
  lemma RunShows(g: Target, font: Font, st: State, es: seq<Event>)
    requires Created(st)
    ensures
      var u := Run(g, font, st, es);
      Pictured(g, font, Run(g, font, st, es + [Render]).s, Now(u)) <==> Spotless(g, Now(u), Marks(g, font, st, es + [Render]))
  {
    hide RenderOn, Image, Smudged, Smeared, Straddles;
    assert (es + [Render])[..|es|] == es;
    var u := Run(g, font, st, es);
    RunSmears(g, font, st, es);
    RenderSmears(g, font, u, Marks(g, font, st, es));
    MarksInside(g, font, st, es + [Render]);
    MarksInside(g, font, st, es);
    SpotlessExactly(g, font, Rendered(g, font, u).s, Now(u), Marks(g, font, st, es + [Render]));
  }

  /** On a target that cuts no cell of the grid, every run leaves the right picture. */
  lemma UncutShows(g: Target, font: Font, st: State, es: seq<Event>)
    requires Created(st)
    requires
      var f := Now(Run(g, font, st, es));
      forall row, col :: 0 <= row < f.rows && 0 <= col < f.cols ==> !Straddles(g, f, row, col)
    ensures Pictured(g, font, Run(g, font, st, es + [Render]).s, Now(Run(g, font, st, es)))
  {
    hide Straddles, Pictured, Marks, RenderOn;
    RunShows(g, font, st, es);
    MarksInside(g, font, st, es + [Render]);
    MarksInside(g, font, st, es);
  }

  // An instance

  /** A terminal of one row and two columns, just created at the corner of a target ten pixels wide. */
  function TwoCells(s: Surface): State {
    var t := Term(Sheet(EmptyLines(1), 2), 2, 1, 0, 0, 7, 0, false, [], true);
    State(t, true, 0, 0, Frame(t.cells, 2, 1, 0, 0, false, 0, 0), s)
  }

  /** Drawing it, writing a letter and drawing it again leaves the first cursor on the target. */
  lemma StrayCursor(font: Font, s: Surface)
    ensures Created(TwoCells(s))
    ensures
      var g, st := Target(10, 100, 0, 0), TwoCells(s);
      !Pictured(g, font, Run(g, font, st, [Render, Output(97), Render]).s, Now(Run(g, font, st, [Render, Output(97)])))
  {
    hide RenderOn, Image, Pictured;
    var g, st := Target(10, 100, 0, 0), TwoCells(s);
    assert Times(1, 2) == 2 && Times(0, 2) == 0;
    var es := [Render, Output(97)];
    var a := Rendered(g, font, st);
    assert [Render][..0] == [] && es[..1] == [Render] && (es + [Render])[..2] == es;
    assert Run(g, font, st, []) == st;
    assert Run(g, font, st, [Render]) == a;
    assert Run(g, font, st, es) == a.(t := Putc(a.t, 97));
    assert Putc(a.t, 97).x == 1 && !Putc(a.t, 97).dirty;
    assert Marks(g, font, st, [Render]) == {(0, 0)};
    assert Marks(g, font, st, es) == {(0, 0)};
    RunShows(g, font, st, es);
    assert es + [Render] == [Render, Output(97), Render];
    assert (0, 0) in Marks(g, font, st, es + [Render]);
    assert Straddles(g, Now(Run(g, font, st, es)), 0, 0);
  }
}
