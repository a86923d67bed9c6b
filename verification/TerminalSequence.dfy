/** Control sequences end to end: the bytes of a sequence, sent one by one, do what the sequence says. */
module TerminalSequence {
  import opened Bytes
  import opened Arith
  import opened Terminal
  import opened Printk

  /** Decimal parameters separated by semicolons. */
  function Encoded(ps: seq<nat>): seq<byte> {
    if ps == [] then []
    else if |ps| == 1 then Numeral(ps[0], Decimal)
    else Numeral(ps[0], Decimal) + ([59] + Encoded(ps[1..]))
  }

  lemma {:induction false} DigitsOnly(v: nat)
    ensures |Numeral(v, Decimal)| > 0 && forall i :: 0 <= i < |Numeral(v, Decimal)| ==> IsDigit(Numeral(v, Decimal)[i])
    decreases v
  {
    if v >= 10 {
      DigitsOnly(v / 10);
    }
  }

  lemma NumeralValue(v: nat)
    ensures Value(Numeral(v, Decimal), Decimal) == v
  {
    PositionalReads(v, Decimal);
    if v == 0 {
      assert [48 as byte][..0] == [];
    }
  }

  lemma {:induction false} DigitsRead(d: seq<byte>, rest: seq<byte>, done: seq<nat>, i: nat)
    requires |done| < 8 && 0 < |d| && i <= |d| && forall j :: 0 <= j < |d| ==> IsDigit(d[j])
    ensures Params(d[i..] + rest, done, Value(d[..i], Decimal), i > 0) == Params(rest, done, Value(d, Decimal), true)
    decreases |d| - i
  {
    if i == |d| {
      assert d[i..] + rest == rest && d[..i] == d;
    } else {
      DigitsRead(d, rest, done, i + 1);
      var s := d[i..] + rest;
      assert s[0] == d[i] && s[1..] == d[i + 1..] + rest;
      assert d[..i + 1][..i] == d[..i];
    }
  }

  lemma NumberRead(v: nat, rest: seq<byte>, done: seq<nat>)
    requires |done| < 8
    ensures Params(Numeral(v, Decimal) + rest, done, 0, false) == Params(rest, done, v, true)
  {
    var d := Numeral(v, Decimal);
    DigitsOnly(v);
    NumeralValue(v);
    DigitsRead(d, rest, done, 0);
    assert d[0..] == d && d[..0] == [];
  }

  /** Up to eight parameters are read back as they were written. */
  lemma {:induction false} ParamsRead(ps: seq<nat>, cmd: byte, done: seq<nat>)
    requires |done| + |ps| <= 8 && IsFinal(cmd)
    ensures Params(Encoded(ps) + [cmd], done, 0, false) == done + ps
    decreases |ps|
  {
    hide Numeral;
    if ps == [] {
      assert [] + [cmd] == [cmd];
      assert [cmd][1..] == [];
    } else if |ps| == 1 {
      NumberRead(ps[0], [cmd], done);
      assert [cmd][1..] == [];
    } else {
      var d, more := Numeral(ps[0], Decimal), Encoded(ps[1..]) + [cmd];
      var rest := [59] + more;
      assert Encoded(ps) + [cmd] == d + rest;
      NumberRead(ps[0], rest, done);
      assert rest[1..] == more;
      ParamsRead(ps[1..], cmd, done + [ps[0]]);
      assert done + [ps[0]] + ps[1..] == done + ps;
    }
  }

  lemma {:induction false} EncodedPlain(ps: seq<nat>)
    ensures forall i :: 0 <= i < |Encoded(ps)| ==> !IsFinal(Encoded(ps)[i])
    decreases |ps|
  {
    if ps != [] {
      DigitsOnly(ps[0]);
      EncodedPlain(ps[1..]);
    }
  }

  /** Bytes that end no sequence are collected. */
  lemma {:induction false} Collected(t: Term, s: seq<byte>)
    requires InBounds(t) && t.inEscape && |t.esc| + |s| < 31 && forall i :: 0 <= i < |s| ==> !IsFinal(s[i])
    ensures PutAll(t, s) == t.(esc := t.esc + s)
    decreases |s|
  {
    hide Newline, ProcessEscape, PutChar;
    if s != [] {
      var r := s[..|s| - 1];
      Collected(t, r);
      assert t.esc + r + [s[|s| - 1]] == t.esc + s;
    } else {
      assert t.esc + s == t.esc;
    }
  }

  lemma {:induction false} ClearIgnoresEscape(t: Term, row: nat, a: bool, e: seq<byte>)
    requires Shaped(t) && row <= t.rows
    ensures ClearFrom(t.(inEscape := a, esc := e), row) == ClearFrom(t, row).(inEscape := a, esc := e)
    decreases t.rows - row
  {
    if row < t.rows {
      ClearIgnoresEscape(ClearLine(t, row), row + 1, a, e);
    }
  }

  lemma {:induction false} ColoursIgnoreEscape(t: Term, ps: seq<nat>, a: bool, e: seq<byte>)
    ensures Colours(t.(inEscape := a, esc := e), ps) == Colours(t, ps).(inEscape := a, esc := e)
    decreases |ps|
  {
    if ps != [] {
      ColoursIgnoreEscape(Colour(t, ps[0]), ps[1..], a, e);
    }
  }

  lemma CommandIgnoresEscape(t: Term, cmd: byte, ps: seq<nat>, e: seq<byte>)
    requires InBounds(t) && |e| < 32
    ensures Command(t.(inEscape := true, esc := e), cmd, ps) == Command(t, cmd, ps).(inEscape := true, esc := e)
  {
    hide ClearFrom, Colours;
    ClearIgnoresEscape(t, 0, true, e);
    ColoursIgnoreEscape(t, ps, true, e);
  }

  /** The final byte runs the collected sequence. */
  lemma FinalByte(t: Term, ps: seq<nat>, cmd: byte)
    requires InBounds(t) && !t.inEscape && IsFinal(cmd) && |ps| <= 8 && |Encoded(ps)| < 30
    ensures Putc(t.(inEscape := true, esc := [91] + Encoded(ps)), cmd) == Command(t, cmd, ps)
  {
    hide Command, Encoded, Params, Newline, PutChar;
    var e := [91] + Encoded(ps) + [cmd];
    assert e[0] == 91 && e[|e| - 1] == cmd && e[1..] == Encoded(ps) + [cmd];
    ParamsRead(ps, cmd, []);
    assert [] + ps == ps;
    CommandIgnoresEscape(t, cmd, ps, e);
    CommandKeepsEscape(t, cmd, ps);
    assert Putc(t.(inEscape := true, esc := [91] + Encoded(ps)), cmd) == ProcessEscape(t.(inEscape := true, esc := e));
  }

  lemma Escaped(t: Term)
    requires InBounds(t) && !t.inEscape
    ensures PutAll(t, [27]) == t.(inEscape := true, esc := [])
  {
    assert [27 as byte][..0] == [];
    assert PutAll(t, []) == t;
  }

  /**
   * The bytes ESC [ p1 ; ... ; pn and a final byte, sent to a terminal between sequences, have exactly
   * the effect of that command with those parameters, as long as they fit the escape buffer.
   */
  lemma SequenceRuns(t: Term, ps: seq<nat>, cmd: byte)
    requires InBounds(t) && !t.inEscape && IsFinal(cmd) && |ps| <= 8 && |Encoded(ps)| < 30
    ensures PutAll(t, [27] + ([91] + Encoded(ps)) + [cmd]) == Command(t, cmd, ps)
  {
    hide Command, Encoded, Putc;
    var body := [91] + Encoded(ps);
    var start := t.(inEscape := true, esc := []);
    Escaped(t);
    EncodedPlain(ps);
    Collected(start, body);
    PutAllAppend(t, [27], body);
    assert start.esc + body == body;
    var s := [27] + body + [cmd];
    assert s[..|s| - 1] == [27] + body;
    FinalByte(t, ps, cmd);
  }

  lemma CommandKeepsEscape(t: Term, cmd: byte, ps: seq<nat>)
    requires InBounds(t)
    ensures Command(t, cmd, ps).inEscape == t.inEscape && Command(t, cmd, ps).esc == t.esc
  {
  }

  lemma {:induction false} PutAllAppend(t: Term, a: seq<byte>, b: seq<byte>)
    requires InBounds(t)
    ensures PutAll(t, a + b) == PutAll(PutAll(t, a), b)
    decreases |b|
  {
    hide Putc;
    if b == [] {
      assert a + b == a;
    } else {
      PutAllAppend(t, a, b[..|b| - 1]);
      assert (a + b)[..|a + b| - 1] == a + b[..|b| - 1];
    }
  }

  /** ESC [ row ; column H puts the cursor there, counting from one, and changes nothing else. */
  lemma CursorPosition(t: Term, row: nat, col: nat)
    requires InBounds(t) && !t.inEscape && 1 <= row <= t.rows && 1 <= col <= t.cols && |Encoded([row, col])| < 30
    ensures PutAll(t, [27] + ([91] + Encoded([row, col])) + [72]) == t.(x := col - 1, y := row - 1)
  {
    hide Encoded, PutAll;
    SequenceRuns(t, [row, col], 72);
  }

  /** ESC [ n A and ESC [ n B undo each other where neither meets an edge. */
  lemma UpAndDown(t: Term, n: nat)
    requires InBounds(t) && !t.inEscape && 1 <= n <= t.y && |Encoded([n])| < 30
    ensures
      var up := PutAll(t, [27] + ([91] + Encoded([n])) + [65]);
      up == t.(y := t.y - n) && PutAll(up, [27] + ([91] + Encoded([n])) + [66]) == t
  {
    hide Encoded, PutAll;
    SequenceRuns(t, [n], 65);
    SequenceRuns(t.(y := t.y - n), [n], 66);
  }

  /** ESC [ n D and ESC [ n C likewise. */
  lemma BackAndForth(t: Term, n: nat)
    requires InBounds(t) && !t.inEscape && 1 <= n <= t.x && |Encoded([n])| < 30
    ensures
      var back := PutAll(t, [27] + ([91] + Encoded([n])) + [68]);
      back == t.(x := t.x - n) && PutAll(back, [27] + ([91] + Encoded([n])) + [67]) == t
  {
    hide Encoded, PutAll;
    SequenceRuns(t, [n], 68);
    SequenceRuns(t.(x := t.x - n), [n], 67);
  }

  /** ESC [ 3f ; 4b m chooses foreground f and background b, ESC [ 9f ; 10b m their bright versions. */
  lemma ChooseColours(t: Term, f: nat, b: nat, bright: bool)
    requires InBounds(t) && !t.inEscape && f < 8 && b < 8
    ensures
      var ps := if bright then [90 + f, 100 + b] else [30 + f, 40 + b];
      PutAll(t, [27] + ([91] + Encoded(ps)) + [109]) == if bright then t.(fg := f + 8, bg := b + 8) else t.(fg := f, bg := b)
  {
    hide Encoded, PutAll;
    var ps := if bright then [90 + f, 100 + b] else [30 + f, 40 + b];
    ShortNumeral(ps[0]);
    ShortNumeral(ps[1]);
    TwoParams(ps);
    SequenceRuns(t, ps, 109);
    var u := Colour(t, ps[0]);
    assert Colours(t, ps) == Colours(u, ps[1..]);
    assert ps[1..] == [ps[1]] && [ps[1]][1..] == [];
    assert Colours(u, [ps[1]]) == Colours(Colour(u, ps[1]), []);
  }

  lemma ShortNumeral(v: nat)
    requires v < 1000
    ensures |Numeral(v, Decimal)| <= 3
  {
    assert Pow(10, 3) == 1000;
    PositionalFits(v, Decimal, 3);
  }

  lemma TwoParams(ps: seq<nat>)
    requires |ps| == 2
    ensures |Encoded(ps)| == |Numeral(ps[0], Decimal)| + 1 + |Numeral(ps[1], Decimal)|
  {
    hide Numeral;
    assert ps[1..] == [ps[1]];
    assert Encoded([ps[1]]) == Numeral(ps[1], Decimal);
  }

  lemma {:induction false} ClearedFrom(t: Term, row: nat)
    requires Shaped(t) && row <= t.rows
    ensures Times(row, t.cols) <= |t.cells|
    ensures ClearFrom(t, row).cells == t.cells[..Times(row, t.cols)] + seq(|t.cells| - Times(row, t.cols), _ => Blank(t))
    decreases t.rows - row
  {
    TimesMonotone(row, t.rows, t.cols);
    if row < t.rows {
      IndexInside(t, row, 0);
      ClearedFrom(ClearLine(t, row), row + 1);
    }
  }

  /** ESC [ 2 J blanks every cell in the current colours and sends the cursor home. */
  lemma EraseDisplay(t: Term)
    requires InBounds(t) && !t.inEscape
    ensures PutAll(t, [27] + ([91] + Encoded([2])) + [74]) == t.(cells := seq(|t.cells|, _ => Blank(t)), x := 0, y := 0)
  {
    hide PutAll, ClearFrom;
    DigitsShort();
    SequenceRuns(t, [2], 74);
    ClearedFrom(t, 0);
  }

  lemma DigitsShort()
    ensures |Encoded([2])| == 1
  {
    assert Positional(2, Decimal) == Positional(0, Decimal) + [50];
  }

  /** ESC [ K puts spaces from the cursor to the end of its row and leaves colours, other cells and cursor alone. */
  lemma EraseLine(t: Term, ps: seq<nat>, row: nat, col: nat)
    requires InBounds(t) && !t.inEscape && |ps| <= 8 && |Encoded(ps)| < 30 && row < t.rows && col < t.cols
    ensures
      var r, at := PutAll(t, [27] + ([91] + Encoded(ps)) + [75]), Times(row, t.cols) + col;
      && r == t.(cells := r.cells) && |r.cells| == |t.cells| && at < |t.cells|
      && r.cells[at] == if row == t.y && col >= t.x then t.cells[at].(ch := 32) else t.cells[at]
  {
    hide Encoded, PutAll, EraseToEnd, Times;
    SequenceRuns(t, ps, 75);
    ErasedCell(t, row, col);
  }

  lemma ErasedCell(t: Term, row: nat, col: nat)
    requires InBounds(t) && row < t.rows && col < t.cols
    ensures
      var r, at := EraseToEnd(t), Times(row, t.cols) + col;
      && r == t.(cells := r.cells) && |r.cells| == |t.cells| && at < |t.cells|
      && r.cells[at] == if row == t.y && col >= t.x then t.cells[at].(ch := 32) else t.cells[at]
  {
    hide Times;
    IndexInside(t, row, col);
    if row < t.y {
      RowsApart(row, t.y, t.cols);
    } else if row > t.y {
      RowsApart(t.y, row, t.cols);
    }
  }

  lemma RowsApart(a: nat, b: nat, cols: nat)
    requires a < b
    ensures Times(a, cols) + cols <= Times(b, cols)
  {
    TimesMonotone(a + 1, b, cols);
  }

  /** A or B moves the cursor up or down, C or D right or left: n places, one if n is absent or 0, but not over the edge. */
  lemma Moves(t: Term, ps: seq<nat>, cmd: byte)
    requires InBounds(t) && !t.inEscape && |ps| <= 8 && |Encoded(ps)| < 30 && cmd as char in "ABCD"
    ensures
      var r := PutAll(t, [27] + ([91] + Encoded(ps)) + [cmd]);
      var n := if ps == [] || ps[0] == 0 then 1 else ps[0];
      && (cmd as char == 'A' ==> r == t.(y := if n <= t.y then t.y - n else 0))
      && (cmd as char == 'B' ==> r == t.(y := if t.y + n < t.rows then t.y + n else t.rows - 1))
      && (cmd as char == 'C' ==> r == t.(x := if t.x + n < t.cols then t.x + n else t.cols - 1))
      && (cmd as char == 'D' ==> r == t.(x := if n <= t.x then t.x - n else 0))
  {
    hide Encoded, PutAll;
    SequenceRuns(t, ps, cmd);
  }

  /** H and f take any row and column, counted from 1; absent or 0 is the first, and too much is the last. */
  lemma Positions(t: Term, ps: seq<nat>, cmd: byte)
    requires InBounds(t) && !t.inEscape && |ps| <= 8 && |Encoded(ps)| < 30 && cmd as char in "Hf"
    ensures
      var r := PutAll(t, [27] + ([91] + Encoded(ps)) + [cmd]);
      && r == t.(x := r.x, y := r.y)
      && r.y == (if |ps| < 1 || ps[0] == 0 then 0 else if ps[0] > t.rows then t.rows - 1 else ps[0] - 1)
      && r.x == (if |ps| < 2 || ps[1] == 0 then 0 else if ps[1] > t.cols then t.cols - 1 else ps[1] - 1)
  {
    hide Encoded, PutAll;
    SequenceRuns(t, ps, cmd);
  }

  /** J without a leading 2, and every final byte that no command has, change nothing. */
  lemma NothingDone(t: Term, ps: seq<nat>, cmd: byte)
    requires InBounds(t) && !t.inEscape && |ps| <= 8 && |Encoded(ps)| < 30 && IsFinal(cmd)
    requires cmd as char !in "ABCDHfJKm" || (cmd as char == 'J' && (ps == [] || ps[0] != 2))
    ensures PutAll(t, [27] + ([91] + Encoded(ps)) + [cmd]) == t
  {
    hide Encoded, PutAll;
    SequenceRuns(t, ps, cmd);
    var letters := "ABCDHfJKm";
    assert letters[0] == 'A' && letters[1] == 'B' && letters[2] == 'C' && letters[3] == 'D' && letters[4] == 'H';
    assert letters[5] == 'f' && letters[6] == 'J' && letters[7] == 'K' && letters[8] == 'm';
  }

  // Colours

  predicate IsFore(p: nat) { p == 0 || 30 <= p <= 37 || 90 <= p <= 97 }
  predicate IsBack(p: nat) { p == 0 || 40 <= p <= 47 || 100 <= p <= 107 }

  /** The last parameter that concerns the foreground decides it, and likewise the background; 0 is white on black. */
  lemma {:induction false} ColoursMean(t: Term, ps: seq<nat>, i: nat)
    requires i <= |ps|
    ensures (i < |ps| && IsFore(ps[i]) && forall k :: i < k < |ps| ==> !IsFore(ps[k])) ==>
      Colours(t, ps).fg == if ps[i] == 0 then 7 else if ps[i] < 40 then ps[i] - 30 else ps[i] - 82
    ensures (i < |ps| && IsBack(ps[i]) && forall k :: i < k < |ps| ==> !IsBack(ps[k])) ==>
      Colours(t, ps).bg == if ps[i] == 0 then 0 else if ps[i] < 50 then ps[i] - 40 else ps[i] - 92
    ensures (forall k :: 0 <= k < |ps| ==> !IsFore(ps[k])) ==> Colours(t, ps).fg == t.fg
    ensures (forall k :: 0 <= k < |ps| ==> !IsBack(ps[k])) ==> Colours(t, ps).bg == t.bg
    decreases |ps|
  {
    if ps != [] {
      var u, rest := Colour(t, ps[0]), ps[1..];
      ColoursMean(u, rest, if i > 0 then i - 1 else 0);
      assert forall k :: 0 < k < |ps| ==> ps[k] == rest[k - 1];
    }
  }

  /** ESC [ ... m does that and nothing else. */
  lemma SelectsColours(t: Term, ps: seq<nat>)
    requires InBounds(t) && !t.inEscape && |ps| <= 8 && |Encoded(ps)| < 30
    ensures
      var r := PutAll(t, [27] + ([91] + Encoded(ps)) + [109]);
      r == t.(fg := Colours(t, ps).fg, bg := Colours(t, ps).bg)
  {
    hide Encoded, PutAll, Colours;
    SequenceRuns(t, ps, 109);
  }

  // Other escapes

  /** An escape followed by a letter is dropped, and so is one that runs to thirty-one bytes without an end. */
  lemma Dropped(t: Term, s: seq<byte>)
    requires InBounds(t) && !t.inEscape && forall i :: 0 <= i < |s| - 1 ==> !IsFinal(s[i])
    requires (|s| == 1 && IsFinal(s[0])) || (|s| == 31 && !IsFinal(s[30]))
    ensures PutAll(t, [27] + s) == t
  {
    hide Command, Newline, PutChar;
    var n := |s| - 1;
    var start := t.(inEscape := true, esc := []);
    Escaped(t);
    Collected(start, s[..n]);
    PutAllAppend(t, [27], s[..n]);
    assert ([27] + s)[..n + 1] == [27] + s[..n] && start.esc + s[..n] == s[..n];
  }
}
