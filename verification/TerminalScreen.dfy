/** The renderer's own code: loops over the pixels of the target and over the cells. */
module TerminalScreen {
  import opened Arith
  import opened Terminal
  import opened TerminalDriver
  import opened TerminalRender

  /** The drawing target. Pixel (`x`, `y`) is `pixels[y, x]`. */
  class Screen {
    const pixels: array2<Colour>
    const g: Target
    const font: Font

    constructor (g: Target, font: Font)
      ensures Valid() && this.g == g && this.font == font && fresh(pixels)
    {
      this.g, this.font := g, font;
      pixels := new Colour[g.height, g.width];
    }

    ghost predicate Valid() { pixels.Length0 == g.height && pixels.Length1 == g.width }

    /** `gui_draw_rect` */
    method DrawRect(x: int, y: int, w0: int, h0: int, c: Colour)
      requires Valid()
      modifies pixels
      ensures forall py, px :: 0 <= py < g.height && 0 <= px < g.width ==>
        pixels[py, px] == RectOn(g, x, y, w0, h0, c, Pixel(px, py), old(pixels[py, px]))
    {
      var tx, ty, w, h := x - g.ox, y - g.oy, w0, h0;
      if w <= 0 || h <= 0 { return; }
      if tx < 0 { w, tx := w + tx, 0; }
      if ty < 0 { h, ty := h + ty, 0; }
      if tx >= g.width || ty >= g.height { return; }
      if tx + w > g.width { w := g.width - tx; }
      if ty + h > g.height { h := g.height - ty; }
      if w <= 0 || h <= 0 { return; }
      for row := 0 to h
        invariant forall py, px :: 0 <= py < g.height && 0 <= px < g.width ==>
          pixels[py, px] == if ty <= py < ty + row && tx <= px < tx + w then c else old(pixels[py, px])
      {
        for col := 0 to w
          invariant forall py, px :: 0 <= py < g.height && 0 <= px < g.width ==>
            pixels[py, px] == if (ty <= py < ty + row && tx <= px < tx + w) || (py == ty + row && tx <= px < tx + col)
                              then c else old(pixels[py, px])
        {
          pixels[ty + row, tx + col] := c;
        }
      }
    }

    /** `gui_draw_char` */
    method DrawChar(x: int, y: int, cell: Cell)
      requires Valid()
      modifies pixels
      ensures forall py, px :: 0 <= py < g.height && 0 <= px < g.width ==>
        pixels[py, px] == CharOn(g, font, x, y, cell, Pixel(px, py), old(pixels[py, px]))
    {
      var tx, ty := x - g.ox, y - g.oy;
      if tx < 0 || tx + 8 > g.width || ty < 0 || ty + 16 > g.height { return; }
      var fg, bg := Palette(cell.fg), Palette(cell.bg);
      for row := 0 to 16
        invariant forall py, px :: 0 <= py < g.height && 0 <= px < g.width ==>
          pixels[py, px] == if ty <= py < ty + row && tx <= px < tx + 8
                            then (if font(cell.ch, py - ty, px - tx) then fg else bg) else old(pixels[py, px])
      {
        for col := 0 to 8
          invariant forall py, px :: 0 <= py < g.height && 0 <= px < g.width ==>
            pixels[py, px] == if (ty <= py < ty + row && tx <= px < tx + 8) || (py == ty + row && tx <= px < tx + col)
                              then (if font(cell.ch, py - ty, px - tx) then fg else bg) else old(pixels[py, px])
        {
          pixels[ty + row, tx + col] := if font(cell.ch, row, col) then fg else bg;
        }
      }
    }
  }

  /** A terminal with its position and its record of what it last drew. */
  class Renderer {
    const term: TerminalBuffer
    const screen: Screen
    const prev: array<Cell>
    var visible: bool
    var lastX: int
    var lastY: int
    var lastVisible: bool
    var px: int
    var py: int
    var lastPx: int
    var lastPy: int

    ghost predicate Valid()
      reads this, term, term.cells, term.escape, prev
    {
      && term.Valid() && screen.Valid()
      && prev != term.cells && prev.Length == term.cells.Length
      && Framed(Now()) && Framed(Last())
    }

    ghost function Now(): Frame
      reads this, term, term.cells
    {
      Frame(term.cells[..], term.cols, term.rows, term.x, term.y, visible, px, py)
    }

    ghost function Last(): Frame
      reads this, prev
    {
      Frame(prev[..], term.cols, term.rows, lastX, lastY, lastVisible, lastPx, lastPy)
    }

    /** The drawing part of `term_create`: a full refresh is due and no cursor has been drawn. */
    constructor (term: TerminalBuffer, screen: Screen, x: int, y: int)
      requires term.Valid() && screen.Valid() && 0 <= term.x < term.cols && 0 <= term.y < term.rows
      modifies term`fullRefresh
      ensures Valid() && this.term == term && this.screen == screen && fresh(prev)
      ensures term.fullRefresh && visible && !lastVisible && px == lastPx == x && py == lastPy == y
      ensures prev[..] == term.cells[..]
    {
      this.term, this.screen := term, screen;
      visible, lastX, lastY, lastVisible := true, 0, 0, false;
      px, py, lastPx, lastPy := x, y, x, y;
      prev := new Cell[term.cells.Length](_ => Cell(SPACE, 7, 0));
      new;
      term.fullRefresh := true;
      CopyCells();
    }

    /** `term_set_content_pos` */
    method MoveTo(x: int, y: int)
      requires Valid()
      modifies this`px, this`py, term`fullRefresh
      ensures Valid() && px == x && py == y
      ensures term.fullRefresh == (old(term.fullRefresh) || x != old(px) || y != old(py))
    {
      if px != x || py != y {
        term.fullRefresh := true;
      }
      px, py := x, y;
    }

    /** `term_draw_cell` */
    method DrawCell(row: nat, col: nat)
      requires Valid() && row < term.rows && col < term.cols
      modifies screen.pixels
      ensures Times(row, term.cols) + col < term.cells.Length
      ensures forall y, x :: 0 <= y < screen.g.height && 0 <= x < screen.g.width ==>
        screen.pixels[y, x] == CellOn(screen.g, screen.font, Now(), Times(row, term.cols) + col,
          Pixel(x, y), old(screen.pixels[y, x]))
    {
      CellInside(Now(), row, col);
      QuotUnique(row, term.cols, col);
      TimesIs(row, term.cols);
      var idx := row * term.cols + col;
      screen.DrawChar(px + 4 + col * 8, py + 4 + row * 16, term.cells[idx]);
    }

    /** The cells of a full refresh, row by row. */
    method DrawAll()
      requires Valid()
      modifies screen.pixels
      ensures forall y, x :: 0 <= y < screen.g.height && 0 <= x < screen.g.width ==>
        screen.pixels[y, x] == CellsOn(screen.g, screen.font, Now(), Last(), true, term.cells.Length,
          Pixel(x, y), old(screen.pixels[y, x]))
    {
      hide CellOn, Times;
      ghost var now, last := Now(), Last();
      assert Times(0, term.cols) == 0 by { TimesIs(0, term.cols); }
      for row := 0 to term.rows
        invariant Valid() && Now() == now && Last() == last && Times(row, term.cols) <= term.cells.Length
        invariant forall y, x :: 0 <= y < screen.g.height && 0 <= x < screen.g.width ==>
          screen.pixels[y, x] == CellsOn(screen.g, screen.font, now, last, true, Times(row, term.cols),
            Pixel(x, y), old(screen.pixels[y, x]))
      {
        TimesMonotone(row + 1, term.rows, term.cols);
        assert Times(row + 1, term.cols) == Times(row, term.cols) + term.cols by {
          TimesIs(row + 1, term.cols);
          TimesIs(row, term.cols);
        }
        for col := 0 to term.cols
          invariant Valid() && Now() == now && Last() == last
          invariant forall y, x :: 0 <= y < screen.g.height && 0 <= x < screen.g.width ==>
            screen.pixels[y, x] == CellsOn(screen.g, screen.font, now, last, true, Times(row, term.cols) + col,
              Pixel(x, y), old(screen.pixels[y, x]))
        {
          DrawCell(row, col);
        }
      }
    }

    /** The cells that differ from the previous copy. */
    method DrawChanged()
      requires Valid()
      modifies screen.pixels
      ensures forall y, x :: 0 <= y < screen.g.height && 0 <= x < screen.g.width ==>
        screen.pixels[y, x] == CellsOn(screen.g, screen.font, Now(), Last(), false, term.cells.Length,
          Pixel(x, y), old(screen.pixels[y, x]))
    {
      hide CellOn, Times, Quot, Rem;
      ghost var now, last := Now(), Last();
      var cells := term.rows * term.cols;
      TimesIs(term.rows, term.cols);
      for i := 0 to cells
        invariant Valid() && Now() == now && Last() == last
        invariant forall y, x :: 0 <= y < screen.g.height && 0 <= x < screen.g.width ==>
          screen.pixels[y, x] == CellsOn(screen.g, screen.font, now, last, false, i,
            Pixel(x, y), old(screen.pixels[y, x]))
      {
        if term.cells[i] != prev[i] {
          var row, col := i / term.cols, i % term.cols;
          QuotIs(i, term.cols);
          QuotRem(i, term.cols);
          QuotBelow(i, term.cols, term.rows);
          DrawCell(row, col);
        }
      }
    }

    /** `term_copy_cells` into the previous copy. */
    method CopyCells()
      requires prev != term.cells && prev.Length == term.cells.Length
      modifies prev
      ensures prev[..] == term.cells[..]
    {
      for i := 0 to prev.Length
        invariant forall j :: 0 <= j < i ==> prev[j] == term.cells[j]
      {
        prev[i] := term.cells[i];
      }
    }

    /** The cells, on a fresh background if everything is drawn. */
    method DrawCells(full: bool)
      requires Valid()
      modifies screen.pixels
      ensures forall y, x :: 0 <= y < screen.g.height && 0 <= x < screen.g.width ==>
        screen.pixels[y, x] == CellsOn(screen.g, screen.font, Now(), Last(), full, term.cells.Length, Pixel(x, y),
          if full then BackgroundOn(screen.g, Now(), Pixel(x, y), old(screen.pixels[y, x])) else old(screen.pixels[y, x]))
    {
      hide CellsOn, RectOn, Times;
      if full {
        screen.DrawRect(px, py, term.cols * 8 + 8, term.rows * 16 + 8, Palette(0));
        DrawAll();
      } else {
        DrawChanged();
      }
    }

    /** The old cursor's cell, then the new cursor. */
    method DrawCursor()
      requires Valid()
      modifies screen.pixels
      ensures forall y, x :: 0 <= y < screen.g.height && 0 <= x < screen.g.width ==>
        screen.pixels[y, x] == CursorOn(screen.g, Now(), Pixel(x, y),
          OldCursorOn(screen.g, screen.font, Now(), Last(), Pixel(x, y), old(screen.pixels[y, x])))
    {
      hide RectOn, CharOn, Times;
      CellInside(Now(), lastY, lastX);
      TimesIs(lastY, term.cols);
      var baseX, baseY := px + 4, py + 4;
      if lastVisible {
        var idx := lastY * term.cols + lastX;
        screen.DrawChar(baseX + lastX * 8, baseY + lastY * 16, term.cells[idx]);
      }
      if visible {
        screen.DrawRect(baseX + term.x * 8, baseY + term.y * 16, 8, 16, Palette(7));
      }
    }

    /** `term_render` */
    method Render()
      requires Valid()
      modifies this, prev, screen.pixels, term`fullRefresh
      ensures Valid() && !term.fullRefresh
      ensures Now() == old(Now()) && Last() == old(Now())
      ensures forall y, x :: 0 <= y < screen.g.height && 0 <= x < screen.g.width ==>
        screen.pixels[y, x] == RenderOn(screen.g, screen.font, old(Now()), old(Last()),
          old(term.fullRefresh || px != lastPx || py != lastPy), Pixel(x, y), old(screen.pixels[y, x]))
    {
      hide CellsOn, BackgroundOn, CursorOn, OldCursorOn, Times;
      DrawCells(term.fullRefresh || px != lastPx || py != lastPy);
      DrawCursor();
      CopyCells();
      lastX, lastY, lastVisible := term.x, term.y, visible;
      lastPx, lastPy := px, py;
      term.fullRefresh := false;
    }
  }
}
