/** `kvsnprintf`: formatting into a bounded buffer is formatting without a bound, cut off. */
module PrintkFormat {
  import opened Wrappers
  import opened Bytes
  import opened Printk

  // Formats and what they mean

  datatype Arg = Number(v: int) | Str(s: seq<byte>) | NullStr

  datatype Length = Plain | Long | LongLong | Size

  datatype Conv = Conv(zero: bool, width: nat, length: Length, spec: byte)

  /** A format is a sequence of these; `zeros` is the number of `0` flags. */
  datatype Piece = Literal(c: byte) | Directive(zeros: nat, conv: Conv)

  /** The conversion character cannot be taken for a digit or a length modifier. */
  ghost predicate PieceShape(p: Piece) {
    match p
    case Literal(c) => c != 0 && c != 37
    case Directive(zeros, conv) =>
      && conv.zero == (zeros > 0) && conv.spec != 0
      && (conv.length.Plain? ==> !IsDigit(conv.spec) && conv.spec != 108 && conv.spec != 122)
      && (conv.length.Long? ==> conv.spec != 108)
  }

  /** And the width fits an `int`. */
  ghost predicate PieceOk(p: Piece) { PieceShape(p) && (p.Directive? ==> p.conv.width < 0x8000_0000) }

  ghost predicate WellFormed(ps: seq<Piece>) { forall i :: 0 <= i < |ps| ==> PieceOk(ps[i]) }

  function Repeat(c: byte, n: int): (s: seq<byte>)
    ensures |s| == if n < 0 then 0 else n
    ensures forall i :: 0 <= i < |s| ==> s[i] == c
  {
    if n <= 0 then [] else seq(n, _ => c)
  }

  function WidthText(w: nat): seq<byte> { if w == 0 then [] else Numeral(w, Decimal) }

  function LengthText(l: Length): seq<byte> {
    match l
    case Plain => []
    case Long => [108]
    case LongLong => [108, 108]
    case Size => [122]
  }

  /** How a piece is written in a format string. */
  function Source(p: Piece): (s: seq<byte>)
    ensures |s| > 0
  {
    match p
    case Literal(c) => [c]
    case Directive(zeros, conv) =>
      [37] + (Repeat(48, zeros) + (WidthText(conv.width) + (LengthText(conv.length) + [conv.spec])))
  }

  function Sources(ps: seq<Piece>): seq<byte> {
    if ps == [] then [] else Source(ps[0]) + Sources(ps[1..])
  }

  /** The conversions that take an argument: d, i, u, x, X, p, s and c. */
  predicate Takes(spec: byte) {
    spec == 100 || spec == 105 || spec == 117 || spec == 120 || spec == 88 || spec == 112 || spec == 115 || spec == 99
  }

  predicate TakesArg(p: Piece) { p.Directive? && Takes(p.conv.spec) }

  /** The argument has the type that the conversion reads. */
  predicate Suits(c: Conv, a: Arg) {
    if c.spec == 100 || c.spec == 105 then
      a.Number? &&
      (if c.length.Plain? then -0x8000_0000 <= a.v < 0x8000_0000
       else -0x8000_0000_0000_0000 < a.v < 0x8000_0000_0000_0000)
    else if c.spec == 117 || c.spec == 120 || c.spec == 88 then
      a.Number? && 0 <= a.v < if c.length.Plain? then 0x1_0000_0000 else 0x1_0000_0000_0000_0000
    else if c.spec == 112 then a.Number? && 0 <= a.v < 0x1_0000_0000_0000_0000
    else if c.spec == 115 then a.NullStr? || (a.Str? && 0 !in a.s)
    else a.Number?
  }

  ghost predicate Suited(ps: seq<Piece>, args: seq<Arg>) {
    ps == [] ||
    if TakesArg(ps[0]) then args != [] && Suits(ps[0].conv, args[0]) && Suited(ps[1..], args[1..])
    else Suited(ps[1..], args)
  }

  const NULL_TEXT: seq<byte> := [40, 110, 117, 108, 108, 41]

  function Padded(c: Conv, s: seq<byte>): seq<byte> {
    Repeat(if c.zero then 48 else 32, c.width - |s|) + s
  }

  function NumberBase(spec: byte): Base {
    if spec == 120 || spec == 112 then Hex(false) else if spec == 88 then Hex(true) else Decimal
  }

  /** The text of a converted argument. */
  function Converted(c: Conv, a: Arg): seq<byte>
    requires Takes(c.spec) && Suits(c, a)
  {
    if c.spec == 112 then [48, 120] + Repeat(48, 16 - |Text(a.v, Hex(false))|) + Text(a.v, Hex(false))
    else if c.spec == 115 then (if a.NullStr? then NULL_TEXT else a.s)
    else if c.spec == 99 then [a.v % 256]
    else Padded(c, Text(a.v, NumberBase(c.spec)))
  }

  /** The text of a piece that takes no argument; an unknown conversion shows as it is written. */
  function Fixed(p: Piece): seq<byte> {
    if p.Literal? then [p.c] else if p.conv.spec == 37 then [37] else [37, p.conv.spec]
  }

  /** The unbounded expansion of a format. */
  ghost function Shown(ps: seq<Piece>, args: seq<Arg>): seq<byte>
    requires Suited(ps, args)
  {
    if ps == [] then []
    else if TakesArg(ps[0]) then Converted(ps[0].conv, args[0]) + Shown(ps[1..], args[1..])
    else Fixed(ps[0]) + Shown(ps[1..], args)
  }

  // What the conversions show

  /** The number that a string of digits denotes in the given radix. */
  function ValueIn(s: seq<byte>, radix: nat): nat {
    if s == [] then 0 else ValueIn(s[..|s| - 1], radix) * radix + DigitValue(s[|s| - 1])
  }

  /** The same with a sign in front. */
  function ReadIn(s: seq<byte>, radix: nat): int {
    if s != [] && s[0] == 45 then (var n: int := ValueIn(s[1..], radix); -n) else ValueIn(s, radix)
  }

  /** The letters among the digits are all of one case. */
  predicate Spelled(s: seq<byte>, upper: bool) {
    forall i :: 0 <= i < |s| ==> s[i] == 45 || 48 <= s[i] <= 57 || (if upper then 65 <= s[i] <= 70 else 97 <= s[i] <= 102)
  }

  lemma {:induction false} ValueInIs(s: seq<byte>, b: Base)
    ensures ValueIn(s, if b.Decimal? then 10 else 16) == Value(s, b)
  {
    if s != [] {
      ValueInIs(s[..|s| - 1], b);
    }
  }

  lemma {:induction false} PositionalSpelled(v: nat, b: Base)
    ensures Spelled(Positional(v, b), b == Hex(true))
    decreases v
  {
    if v > 0 {
      PositionalSpelled(High(v, b), b);
    }
  }

  lemma TextSpelled(v: int, b: Base)
    ensures Spelled(Text(v, b), b == Hex(true)) && ReadIn(Text(v, b), if b.Decimal? then 10 else 16) == v
  {
    hide Positional, Value, ValueIn;
    PositionalSpelled(if v < 0 then -v else v, b);
    TextReads(v, b);
    var t := Text(v, b);
    ValueInIs(t, b);
    if t[0] == 45 {
      ValueInIs(t[1..], b);
    }
  }

  lemma {:induction false} LeadingZeros(n: nat, t: seq<byte>, radix: nat)
    ensures ValueIn(Repeat(48, n) + t, radix) == ValueIn(t, radix)
    decreases n + |t|
  {
    var s := Repeat(48, n) + t;
    if t != [] {
      LeadingZeros(n, t[..|t| - 1], radix);
      assert s[..|s| - 1] == Repeat(48, n) + t[..|t| - 1];
    } else if n > 0 {
      LeadingZeros(n - 1, [], radix);
      assert s[..|s| - 1] == Repeat(48, n - 1) + [];
    }
  }

  /** The conversions that take an argument, by their letters. */
  lemma TakesLetters(spec: byte)
    ensures Takes(spec) <==> spec as char in "diuxXpsc"
  {
  }

  /**
   * d, i and u show the number in decimal, x and X in hexadecimal with small and capital letters, without
   * a leading zero; shorter texts are filled up to the width from the left, with zeros or blanks as asked.
   */
  lemma NumberShown(c: Conv, a: Arg) returns (t: seq<byte>)
    requires Takes(c.spec) && Suits(c, a) && c.spec as char in "diuxX"
    ensures
      var s := Converted(c, a);
      && |t| <= |s| && |s| == (if c.width > |t| then c.width else |t|) && s[|s| - |t|..] == t
      && (forall i :: 0 <= i < |s| - |t| ==> s[i] == if c.zero then 48 else 32)
    ensures ReadIn(t, if c.spec as char in "xX" then 16 else 10) == a.v && Spelled(t, c.spec as char == 'X')
    ensures
      var digits := if a.v < 0 then t[1..] else t;
      |digits| > 0 && (|digits| > 1 ==> digits[0] != 48)
  {
    hide Text, ReadIn, Spelled;
    t := Text(a.v, NumberBase(c.spec));
    TextSpelled(a.v, NumberBase(c.spec));
    TextReads(a.v, NumberBase(c.spec));
    var s, n := Converted(c, a), c.width - |t|;
    assert s == Repeat(if c.zero then 48 else 32, n) + t;
    assert c.spec as char in "xX" <==> c.spec == 120 || c.spec == 88;
  }

  /** p shows sixteen hexadecimal digits behind 0x. */
  lemma PointerShown(c: Conv, a: Arg)
    requires Takes(c.spec) && Suits(c, a) && c.spec as char == 'p'
    ensures
      var s := Converted(c, a);
      && |s| == 18 && s[0] as char == '0' && s[1] as char == 'x'
      && ValueIn(s[2..], 16) == a.v && Spelled(s[2..], false)
  {
    hide Text, ValueIn, Spelled;
    var t := Text(a.v, Hex(false));
    PointerDigits(a.v);
    assert Converted(c, a)[2..] == Repeat(48, 16 - |t|) + t;
  }

  lemma PointerFits(v: nat)
    requires v < 0x1_0000_0000_0000_0000
    ensures |Text(v, Hex(false))| <= 16
  {
    assert Pow(16, 4) == 0x1_0000;
    assert Pow(16, 8) == 0x1_0000_0000;
    assert Pow(16, 12) == 0x1_0000_0000_0000;
    assert Pow(16, 16) == 0x1_0000_0000_0000_0000;
    PositionalFits(v, Hex(false), 16);
  }

  lemma PointerDigits(v: nat)
    requires v < 0x1_0000_0000_0000_0000
    ensures
      var t := Text(v, Hex(false));
      && |t| <= 16
      && ValueIn(Repeat(48, 16 - |t|) + t, 16) == v && Spelled(Repeat(48, 16 - |t|) + t, false)
  {
    var t := Text(v, Hex(false));
    PointerFits(v);
    TextSpelled(v, Hex(false));
    PositionalReads(v, Hex(false));
    LeadingZeros(16 - |t|, t, 16);
  }

  /** s shows its string, or `(null)`, and c its argument as one byte; the width counts for neither. */
  lemma StringShown(c: Conv, a: Arg)
    requires Takes(c.spec) && Suits(c, a) && c.spec as char in "sc"
    ensures
      var s := Converted(c, a);
      && (c.spec as char == 's' && a.Str? ==> s == a.s)
      && (c.spec as char == 's' && a.NullStr? ==> |s| == 6 && forall i :: 0 <= i < 6 ==> s[i] as char == "(null)"[i])
      && (c.spec as char == 'c' ==> |s| == 1 && (s[0] - a.v) % 256 == 0)
  {
  }

  /** A literal shows itself, two percent signs one, and an unknown conversion its sign and its letter. */
  lemma FixedShown(p: Piece)
    requires !TakesArg(p)
    ensures p.Literal? ==> Fixed(p) == [p.c]
    ensures p.Directive? ==>
      Fixed(p)[0] as char == '%' && Fixed(p)[1..] == if p.conv.spec as char == '%' then [] else [p.conv.spec]
  {
  }

  // Scanning a directive

  /** A character of a string, or its end. */
  function Ch(s: seq<byte>, k: nat): byte { if k < |s| then s[k] else 0 }

  function ScanZeros(s: seq<byte>, k: nat): (r: nat)
    ensures k <= r
    decreases |s| - k
  {
    if Ch(s, k) == 48 then ScanZeros(s, k + 1) else k
  }

  function ScanWidth(s: seq<byte>, k: nat, w: nat): (r: (nat, nat))
    ensures k <= r.1
    decreases |s| - k
  {
    if IsDigit(Ch(s, k)) then ScanWidth(s, k + 1, w * 10 + (Ch(s, k) - 48)) else (w, k)
  }

  function ScanLength(s: seq<byte>, k: nat): (Length, nat) {
    if Ch(s, k) == 108 then if Ch(s, k + 1) == 108 then (LongLong, k + 2) else (Long, k + 1)
    else if Ch(s, k) == 122 then (Size, k + 1)
    else (Plain, k)
  }

  /** The conversion at `k`, behind the percent sign, and the place of its last character. */
  function Scan(s: seq<byte>, k: nat): (Conv, nat) {
    var z := ScanZeros(s, k);
    var (w, i) := ScanWidth(s, z, 0);
    var (l, j) := ScanLength(s, i);
    (Conv(z > k, w, l, Ch(s, j)), j)
  }

  predicate AtPlace(s: seq<byte>, k: nat, t: seq<byte>) { k + |t| <= |s| && s[k..k + |t|] == t }

  lemma AtParts(s: seq<byte>, k: nat, a: seq<byte>, b: seq<byte>)
    requires AtPlace(s, k, a + b)
    ensures AtPlace(s, k, a) && AtPlace(s, k + |a|, b)
  {
    assert s[k..k + |a|] == s[k..k + |a + b|][..|a|];
    assert s[k + |a|..k + |a| + |b|] == s[k..k + |a + b|][|a|..];
  }

  lemma AtChar(s: seq<byte>, k: nat, t: seq<byte>, i: nat)
    requires AtPlace(s, k, t) && i < |t|
    ensures Ch(s, k + i) == t[i]
  {
    assert s[k..k + |t|][i] == s[k + i];
  }

  lemma {:induction false} ScanZerosReads(s: seq<byte>, k: nat, n: nat)
    requires AtPlace(s, k, Repeat(48, n)) && Ch(s, k + n) != 48
    ensures ScanZeros(s, k) == k + n
    decreases n
  {
    if n > 0 {
      AtChar(s, k, Repeat(48, n), 0);
      assert Repeat(48, n) == [48] + Repeat(48, n - 1);
      AtParts(s, k, [48], Repeat(48, n - 1));
      ScanZerosReads(s, k + 1, n - 1);
    }
  }

  lemma {:induction false} DecimalDigits(v: nat)
    ensures forall i :: 0 <= i < |Positional(v, Decimal)| ==> IsDigit(Positional(v, Decimal)[i])
    decreases v
  {
    if v > 0 {
      DecimalDigits(v / 10);
    }
  }

  lemma {:induction false} ScanWidthReads(s: seq<byte>, k: nat, d: seq<byte>, i: nat)
    requires AtPlace(s, k, d) && !IsDigit(Ch(s, k + |d|)) && i <= |d|
    requires forall j :: 0 <= j < |d| ==> IsDigit(d[j])
    ensures ScanWidth(s, k + i, Value(d[..i], Decimal)) == (Value(d, Decimal), k + |d|)
    decreases |d| - i
  {
    if i == |d| {
      assert d[..i] == d;
    } else {
      AtChar(s, k, d, i);
      ScanWidthReads(s, k, d, i + 1);
      assert d[..i + 1][..i] == d[..i];
    }
  }

  /** A width of no digits is zero; any other is read back. */
  lemma WidthReads(s: seq<byte>, k: nat, w: nat)
    requires AtPlace(s, k, WidthText(w)) && !IsDigit(Ch(s, k + |WidthText(w)|))
    ensures ScanWidth(s, k, 0) == (w, k + |WidthText(w)|)
    ensures Ch(s, k) != 48
  {
    if w > 0 {
      DecimalDigits(w);
      PositionalReads(w, Decimal);
      AtChar(s, k, WidthText(w), 0);
      ScanWidthReads(s, k, WidthText(w), 0);
    }
  }

  lemma LengthReads(s: seq<byte>, k: nat, l: Length, spec: byte)
    requires AtPlace(s, k, LengthText(l) + [spec])
    requires PieceShape(Directive(0, Conv(false, 0, l, spec)))
    ensures ScanLength(s, k) == (l, k + |LengthText(l)|) && Ch(s, k + |LengthText(l)|) == spec && !IsDigit(Ch(s, k))
  {
    var t := LengthText(l) + [spec];
    AtChar(s, k, t, 0);
    AtChar(s, k, t, |t| - 1);
    AtChar(s, k, t, if |t| > 1 then 1 else 0);
  }

  /** The parts of a directive, one behind the other. */
  lemma SourceParts(s: seq<byte>, k: nat, p: Piece)
    requires p.Directive? && AtPlace(s, k, Source(p))
    ensures
      var z, w, l := Repeat(48, p.zeros), WidthText(p.conv.width), LengthText(p.conv.length);
      && Ch(s, k) == 37 && AtPlace(s, k + 1, z) && AtPlace(s, k + 1 + |z|, w)
      && AtPlace(s, k + 1 + |z| + |w|, l + [p.conv.spec])
      && |Source(p)| == 2 + |z| + |w| + |l|
  {
    hide AtPlace, WidthText, LengthText, Repeat, Ch;
    var z, w, l, c := Repeat(48, p.zeros), WidthText(p.conv.width), LengthText(p.conv.length), [p.conv.spec];
    AtChar(s, k, Source(p), 0);
    AtParts(s, k, [37], z + (w + (l + c)));
    AtParts(s, k + 1, z, w + (l + c));
    AtParts(s, k + 1 + |z|, w, l + c);
  }

  /** Scanning reads back the conversion that was written. */
  lemma ScanReads(s: seq<byte>, k: nat, p: Piece)
    requires PieceShape(p) && p.Directive? && AtPlace(s, k, Source(p))
    ensures Ch(s, k) == 37 && Scan(s, k + 1) == (p.conv, k + |Source(p)| - 1)
  {
    hide AtPlace, Source, WidthText, LengthText, ScanZeros, ScanWidth, ScanLength, IsDigit, Ch;
    SourceParts(s, k, p);
    var z, w := |Repeat(48, p.zeros)|, |WidthText(p.conv.width)|;
    LengthReads(s, k + 1 + z + w, p.conv.length, p.conv.spec);
    WidthReads(s, k + 1 + z, p.conv.width);
    ScanZerosReads(s, k + 1, p.zeros);
  }

  // Every format is a sequence of pieces

  /** The pieces of a format; `None` if it ends inside a directive. */
  function PiecesOf(s: seq<byte>): Option<seq<Piece>>
    decreases |s|
  {
    if s == [] then Some([])
    else if s[0] != 37 then
      match PiecesOf(s[1..])
      case None => None
      case Some(ps) => Some([Literal(s[0])] + ps)
    else
      var (c, j) := Scan(s, 1);
      if j >= |s| then None else
      match PiecesOf(s[j + 1..])
      case None => None
      case Some(ps) => Some([Directive(ScanZeros(s, 1) - 1, c)] + ps)
  }

  lemma {:induction false} ZerosWritten(s: seq<byte>, k: nat)
    requires k <= |s|
    ensures
      var z := ScanZeros(s, k);
      z <= |s| && s[k..z] == Repeat(48, z - k) && Ch(s, z) != 48
    decreases |s| - k
  {
    if Ch(s, k) == 48 {
      ZerosWritten(s, k + 1);
      var z := ScanZeros(s, k + 1);
      assert s[k..z] == [s[k]] + s[k + 1..z];
      assert Repeat(48, z - k) == [48] + Repeat(48, z - k - 1);
    } else {
      assert s[k..k] == Repeat(48, 0);
    }
  }

  lemma {:induction false} DigitsWritten(s: seq<byte>, k: nat, w: nat)
    requires k <= |s|
    ensures
      var i := ScanWidth(s, k, w).1;
      i <= |s| && !IsDigit(Ch(s, i)) && forall j :: k <= j < i ==> IsDigit(s[j])
    decreases |s| - k
  {
    if IsDigit(Ch(s, k)) {
      DigitsWritten(s, k + 1, w * 10 + (Ch(s, k) - 48));
    }
  }

  /** Digits that do not start with zero are the numeral of their value. */
  lemma {:induction false} NumeralOf(d: seq<byte>)
    requires d != [] && d[0] != 48 && forall j :: 0 <= j < |d| ==> IsDigit(d[j])
    ensures Value(d, Decimal) > 0 && Positional(Value(d, Decimal), Decimal) == d
    decreases |d|
  {
    var n := |d| - 1;
    var head, x: nat := d[..n], d[n] - 48;
    assert d == head + [d[n]];
    if n > 0 {
      NumeralOf(head);
    }
    var v := Value(d, Decimal);
    assert v == Value(head, Decimal) * 10 + x;
    assert v / 10 == Value(head, Decimal) && v % 10 == x;
  }

  lemma WidthWritten(s: seq<byte>, k: nat)
    requires k <= |s| && Ch(s, k) != 48
    ensures
      var (w, i) := ScanWidth(s, k, 0);
      i <= |s| && s[k..i] == WidthText(w) && !IsDigit(Ch(s, i))
  {
    hide ScanWidth, Positional;
    DigitsWritten(s, k, 0);
    var i := ScanWidth(s, k, 0).1;
    var d := s[k..i];
    assert AtPlace(s, k, d);
    ScanWidthReads(s, k, d, 0);
    assert d[..0] == [] && Value([], Decimal) == 0;
    if d != [] {
      NumeralOf(d);
    }
  }

  lemma LengthWritten(s: seq<byte>, k: nat)
    requires k <= |s| && !IsDigit(Ch(s, k)) && 0 !in s
    ensures
      var (l, j) := ScanLength(s, k);
      k <= j <= |s| && s[k..j] == LengthText(l) && (j < |s| ==> PieceShape(Directive(0, Conv(false, 0, l, s[j]))))
  {
    var (l, j) := ScanLength(s, k);
    assert j == k + 2 ==> s[k..j] == [s[k], s[k + 1]];
    assert j == k + 1 ==> s[k..j] == [s[k]];
  }

  /** What is scanned is what is written. */
  lemma ScanWritten(s: seq<byte>, k: nat)
    requires k < |s| && s[k] == 37 && 0 !in s && Scan(s, k + 1).1 < |s|
    ensures
      var (c, j) := Scan(s, k + 1);
      var p := Directive(ScanZeros(s, k + 1) - k - 1, c);
      PieceShape(p) && k < j && s[k..j + 1] == Source(p)
  {
    hide ScanZeros, ScanWidth, ScanLength, WidthText, LengthText, Repeat, Ch, IsDigit, Source;
    ZerosWritten(s, k + 1);
    var z := ScanZeros(s, k + 1);
    WidthWritten(s, z);
    var (w, i) := ScanWidth(s, z, 0);
    LengthWritten(s, i);
    var (l, j) := ScanLength(s, i);
    Ch1(s, j);
    FiveParts(s, k, z, i, j);
    var p := Directive(z - k - 1, Conv(z > k + 1, w, l, s[j]));
    SourceIs(p, s[k + 1..z], s[z..i], s[i..j]);
  }

  lemma SourceIs(p: Piece, z: seq<byte>, w: seq<byte>, l: seq<byte>)
    requires p.Directive? && z == Repeat(48, p.zeros) && w == WidthText(p.conv.width) && l == LengthText(p.conv.length)
    ensures Source(p) == [37] + (z + (w + (l + [p.conv.spec])))
  {
    hide Repeat, WidthText, LengthText;
  }

  lemma Ch1(s: seq<byte>, j: nat)
    requires j < |s|
    ensures Ch(s, j) == s[j]
  {
  }

  lemma FiveParts(s: seq<byte>, k: nat, z: nat, i: nat, j: nat)
    requires k < z <= i <= j < |s|
    ensures s[k..j + 1] == [s[k]] + (s[k + 1..z] + (s[z..i] + (s[i..j] + [s[j]])))
  {
    Slice(s, k, k + 1, j + 1);
    Slice(s, k + 1, z, j + 1);
    Slice(s, z, i, j + 1);
    Slice(s, i, j, j + 1);
    One(s, k);
    One(s, j);
  }

  lemma Slice(s: seq<byte>, a: nat, b: nat, c: nat)
    requires a <= b <= c <= |s|
    ensures s[a..c] == s[a..b] + s[b..c]
  {
  }

  lemma One(s: seq<byte>, k: nat)
    requires k < |s|
    ensures s[k..k + 1] == [s[k]]
  {
  }

  /** Every string is written by its pieces, unless it ends inside a directive. */
  lemma {:induction false} PiecesWrite(s: seq<byte>)
    requires 0 !in s && PiecesOf(s).Some?
    ensures
      var ps := PiecesOf(s).value;
      Sources(ps) == s && forall i :: 0 <= i < |ps| ==> PieceShape(ps[i])
    decreases |s|
  {
    hide Scan, Source, PieceShape;
    if s != [] {
      if s[0] != 37 {
        PiecesWrite(s[1..]);
        LiteralWrites(s[0]);
        FirstWrites(Literal(s[0]), PiecesOf(s[1..]).value);
      } else {
        var (c, j) := Scan(s, 1);
        ScanWritten(s, 0);
        PiecesWrite(s[j + 1..]);
        FirstWrites(Directive(ScanZeros(s, 1) - 1, c), PiecesOf(s[j + 1..]).value);
        assert s == s[0..j + 1] + s[j + 1..];
      }
    }
  }

  lemma LiteralWrites(c: byte)
    requires c != 37 && c != 0
    ensures PieceShape(Literal(c)) && Source(Literal(c)) == [c]
  {
  }

  lemma FirstWrites(p: Piece, ps: seq<Piece>)
    ensures Sources([p] + ps) == Source(p) + Sources(ps)
  {
    assert ([p] + ps)[1..] == ps;
  }

  /** Pieces are read back from the string they write, so no other pieces write it. */
  lemma {:induction false} PiecesRead(ps: seq<Piece>)
    requires forall i :: 0 <= i < |ps| ==> PieceShape(ps[i])
    ensures PiecesOf(Sources(ps)) == Some(ps)
    decreases |ps|
  {
    hide Scan, ScanZeros, PieceShape, Source, AtPlace;
    if ps != [] {
      var p, rest := ps[0], Sources(ps[1..]);
      var s := Source(p) + rest;
      PiecesRead(ps[1..]);
      Joined(Source(p), rest);
      PieceStarts(s, 0, p);
      if p.Directive? {
        ScanReads(s, 0, p);
        ZerosRead(s, p);
      }
      assert ps == [p] + ps[1..];
    }
  }

  lemma Joined(a: seq<byte>, b: seq<byte>)
    ensures AtPlace(a + b, 0, a) && (a + b)[|a|..] == b
  {
  }

  lemma ZerosRead(s: seq<byte>, p: Piece)
    requires PieceShape(p) && p.Directive? && AtPlace(s, 0, Source(p))
    ensures ScanZeros(s, 1) == 1 + p.zeros
  {
    hide AtPlace, Source, WidthText, LengthText, ScanZeros, ScanWidth, ScanLength, IsDigit, Ch;
    SourceParts(s, 0, p);
    var z, w := |Repeat(48, p.zeros)|, |WidthText(p.conv.width)|;
    LengthReads(s, 1 + z + w, p.conv.length, p.conv.spec);
    WidthReads(s, 1 + z, p.conv.width);
    ScanZerosReads(s, 1, p.zeros);
  }

  // Output that stops at the end of the buffer

  /** The first `n` characters. */
  function Cut(s: seq<byte>, n: nat): (r: seq<byte>)
    ensures r <= s && |r| == if |s| <= n then |s| else n
  {
    if |s| <= n then s else s[..n]
  }

  /** The buffer holds all of a text, or as much as fits. */
  predicate Holds(b: seq<byte>, p: nat, end: nat, text: seq<byte>) {
    p <= end < |b| && b[..p] == Cut(text, end)
  }

  /** Text behind a full buffer is lost. */
  lemma FullStays(b: seq<byte>, p: nat, end: nat, text: seq<byte>, more: seq<byte>)
    requires Holds(b, p, end, text) && p == end
    ensures Holds(b, p, end, text + more)
  {
    assert (text + more)[..end] == text[..end];
  }

  lemma OneMore(b: seq<byte>, p: nat, end: nat, text: seq<byte>, c: byte)
    requires Holds(b, p, end, text) && p < end
    ensures Holds(b[p := c], p + 1, end, text + [c])
  {
    assert b[p := c][..p + 1] == b[..p] + [c];
  }

  method PutByte(buf: array<byte>, p: nat, end: nat, c: byte, ghost done: seq<byte>) returns (q: nat)
    requires Holds(buf[..], p, end, done)
    modifies buf
    ensures Holds(buf[..], q, end, done + [c]) && q >= p && buf[q..] == old(buf[q..])
  {
    hide Holds, Cut;
    q := p;
    HoldsInside(buf[..], p, end, done);
    if q < end {
      OneMore(buf[..], p, end, done, c);
      ghost var b := buf[..];
      buf[q] := c;
      assert buf[..] == b[p := c];
      q := q + 1;
    } else {
      FullStays(buf[..], p, end, done, [c]);
    }
  }

  lemma HoldsInside(b: seq<byte>, p: nat, end: nat, text: seq<byte>)
    requires Holds(b, p, end, text)
    ensures p <= end < |b| && p <= |text|
  {
  }

  /** The padding loops. */
  method PutPadding(buf: array<byte>, p: nat, end: nat, from: nat, to: nat, c: byte,
                    ghost done: seq<byte>) returns (q: nat)
    requires Holds(buf[..], p, end, done)
    modifies buf
    ensures Holds(buf[..], q, end, done + Repeat(c, to - from)) && q >= p && buf[q..] == old(buf[q..])
  {
    hide Holds;
    q := p;
    HoldsInside(buf[..], p, end, done);
    assert done + Repeat(c, 0) == done;
    for i := from to if to < from then from else to
      invariant Holds(buf[..], q, end, done + Repeat(c, i - from)) && q >= p && q <= buf.Length
      invariant buf[q..] == old(buf[q..])
    {
      ghost var was, q0 := buf[..], q;
      q := PutByte(buf, q, end, c, done + Repeat(c, i - from));
      assert done + Repeat(c, i - from) + [c] == done + Repeat(c, i + 1 - from);
      HoldsInside(buf[..], q, end, done + Repeat(c, i + 1 - from));
      assert was[q0..][q - q0..] == was[q..];
    }
  }

  /** The copying loops, for digits and strings. */
  method PutText(buf: array<byte>, p: nat, end: nat, s: seq<byte>, ghost done: seq<byte>) returns (q: nat)
    requires Holds(buf[..], p, end, done)
    modifies buf
    ensures Holds(buf[..], q, end, done + s) && q >= p && buf[q..] == old(buf[q..])
  {
    hide Holds;
    q := p;
    var i := 0;
    assert done + s[..0] == done;
    HoldsInside(buf[..], q, end, done);
    while i < |s| && q < end
      invariant i <= |s| && Holds(buf[..], q, end, done + s[..i]) && p <= q <= end < buf.Length
      invariant buf[q..] == old(buf[q..])
    {
      ghost var was := buf[..];
      OneMore(was, q, end, done + s[..i], s[i]);
      buf[q] := s[i];
      assert buf[..] == was[q := s[i]];
      assert done + s[..i] + [s[i]] == done + s[..i + 1];
      q := q + 1;
      i := i + 1;
    }
    if i < |s| {
      FullStays(buf[..], q, end, done + s[..i], s[i..]);
      assert done + s[..i] + s[i..] == done + s;
    } else {
      assert s[..i] == s;
    }
  }

  // The formatter

  /** Scanning a directive's flags, width and length; `j` is left at its conversion character. */
  method ScanDirective(fmt: seq<byte>, k: nat) returns (c: Conv, j: nat)
    ensures (c, j) == Scan(fmt, k)
  {
    j := k;
    var zero, width: nat := false, 0;
    while Ch(fmt, j) == 48
      invariant k <= j && zero == (j > k) && ScanZeros(fmt, j) == ScanZeros(fmt, k)
      decreases |fmt| - j
    {
      zero := true;
      j := j + 1;
    }
    ghost var z := j;
    while IsDigit(Ch(fmt, j))
      invariant ScanWidth(fmt, j, width) == ScanWidth(fmt, z, 0)
      decreases |fmt| - j
    {
      width := width * 10 + (Ch(fmt, j) - 48);
      j := j + 1;
    }
    var length := Plain;
    if Ch(fmt, j) == 108 {
      length := Long;
      j := j + 1;
      if Ch(fmt, j) == 108 {
        length := LongLong;
        j := j + 1;
      }
    } else if Ch(fmt, j) == 122 {
      length := Size;
      j := j + 1;
    }
    c := Conv(zero, width, length, Ch(fmt, j));
  }

  /** The number conversions: the digits, right-aligned in the field. */
  method PutNumber(buf: array<byte>, p: nat, end: nat, num: array<byte>, c: Conv, v: int,
                   ghost done: seq<byte>) returns (q: nat)
    requires Holds(buf[..], p, end, done) && num.Length == 32 && num != buf
    requires Takes(c.spec) && c.spec != 112 && c.spec != 115 && c.spec != 99 && Suits(c, Number(v))
    modifies buf, num
    ensures Holds(buf[..], q, end, done + Padded(c, Text(v, NumberBase(c.spec)))) && q >= p && buf[q..] == old(buf[q..])
  {
    hide Holds, Text;
    var len;
    if c.spec == 100 || c.spec == 105 {
      len := Itoa(v, num, Decimal, true);
    } else {
      len := Utoa(v, num, NumberBase(c.spec));
    }
    ghost var pad := Repeat(if c.zero then 48 else 32, c.width - len);
    ghost var was := buf[..];
    q := PutPadding(buf, p, end, len, c.width, if c.zero then 48 else 32, done);
    HoldsInside(buf[..], q, end, done + pad);
    ghost var q0 := q;
    q := PutText(buf, q, end, num[..len], done + pad);
    HoldsInside(buf[..], q, end, done + pad + num[..len]);
    assert done + pad + num[..len] == done + (pad + num[..len]);
    assert was[q0..][q - q0..] == was[q..];
  }

  /** `%p`: sixteen hexadecimal digits behind `0x`. */
  method PutPointer(buf: array<byte>, p: nat, end: nat, num: array<byte>, v: nat,
                    ghost done: seq<byte>) returns (q: nat)
    requires Holds(buf[..], p, end, done) && num.Length == 32 && num != buf && v < 0x1_0000_0000_0000_0000
    modifies buf, num
    ensures Holds(buf[..], q, end, done + ([48, 120] + Repeat(48, 16 - |Text(v, Hex(false))|) + Text(v, Hex(false))))
    ensures q >= p && buf[q..] == old(buf[q..])
  {
    hide Holds, Text;
    ghost var was := buf[..];
    q := PutText(buf, p, end, [48, 120], done);
    ghost var q0 := q;
    HoldsInside(buf[..], q, end, done + [48, 120]);
    var len := Utoa(v, num, Hex(false));
    ghost var room: int := len;
    ghost var pad, digits := Repeat(48, 16 - room), num[..len];
    q := PutPadding(buf, q, end, len, 16, 48, done + [48, 120]);
    ghost var q1 := q;
    HoldsInside(buf[..], q, end, done + [48, 120] + pad);
    q := PutText(buf, q, end, num[..len], done + [48, 120] + pad);
    HoldsInside(buf[..], q, end, done + [48, 120] + pad + digits);
    assert done + [48, 120] + pad + digits == done + ([48, 120] + pad + digits);
    assert was[q0..][q1 - q0..][q - q1..] == was[q..];
  }

  /** The switch over conversions that take an argument. */
  method PutConverted(buf: array<byte>, p: nat, end: nat, num: array<byte>, c: Conv, a: Arg,
                      ghost done: seq<byte>) returns (q: nat)
    requires Holds(buf[..], p, end, done) && num.Length == 32 && num != buf && Takes(c.spec) && Suits(c, a)
    modifies buf, num
    ensures Holds(buf[..], q, end, done + Converted(c, a)) && q >= p && buf[q..] == old(buf[q..])
  {
    hide Holds, Text, Padded;
    if c.spec == 112 {
      q := PutPointer(buf, p, end, num, a.v, done);
    } else if c.spec == 115 {
      q := PutText(buf, p, end, if a.NullStr? then NULL_TEXT else a.s, done);
    } else if c.spec == 99 {
      q := PutByte(buf, p, end, a.v % 256, done);
    } else {
      q := PutNumber(buf, p, end, num, c, a.v, done);
    }
  }

  /** The format from `k` on is the pieces from `m` on. */
  ghost predicate Remaining(fmt: seq<byte>, k: nat, ps: seq<Piece>, m: nat) {
    m <= |ps| && k <= |fmt| && fmt[k..] == Sources(ps[m..])
  }

  lemma NextPiece(fmt: seq<byte>, k: nat, ps: seq<Piece>, m: nat)
    requires Remaining(fmt, k, ps, m)
    ensures m <= |ps| && k <= |fmt| && (k == |fmt| <==> m == |ps|)
    ensures m < |ps| ==> AtPlace(fmt, k, Source(ps[m])) && Remaining(fmt, k + |Source(ps[m])|, ps, m + 1)
  {
    if m < |ps| {
      var s, t := Source(ps[m]), Sources(ps[m + 1..]);
      assert ps[m..][1..] == ps[m + 1..];
      assert fmt[k..] == s + t;
      assert fmt[k..k + |s|] == fmt[k..][..|s|];
      assert fmt[k + |s|..] == fmt[k..][|s|..];
    }
  }

  /** What is still to be shown. */
  ghost predicate ToShow(ps: seq<Piece>, args: seq<Arg>, m: nat, a: nat, done: seq<byte>)
    requires Suited(ps, args)
  {
    m <= |ps| && a <= |args| && Suited(ps[m..], args[a..]) && Shown(ps, args) == done + Shown(ps[m..], args[a..])
  }

  lemma Associate(a: seq<byte>, b: seq<byte>, c: seq<byte>)
    ensures a + (b + c) == (a + b) + c
  {
  }

  lemma Tail<T>(s: seq<T>, m: nat)
    requires m < |s|
    ensures s[m..] != [] && s[m..][0] == s[m] && s[m..][1..] == s[m + 1..]
  {
  }

  lemma ShownFirst(ps: seq<Piece>, args: seq<Arg>)
    requires ps != [] && Suited(ps, args)
    ensures TakesArg(ps[0]) ==>
      && args != [] && Suits(ps[0].conv, args[0]) && Suited(ps[1..], args[1..])
      && Shown(ps, args) == Converted(ps[0].conv, args[0]) + Shown(ps[1..], args[1..])
    ensures !TakesArg(ps[0]) ==> Suited(ps[1..], args) && Shown(ps, args) == Fixed(ps[0]) + Shown(ps[1..], args)
  {
    hide Converted, Fixed, Suits, TakesArg;
  }

  lemma NextShown(ps: seq<Piece>, args: seq<Arg>, m: nat, a: nat, done: seq<byte>)
    requires Suited(ps, args) && ToShow(ps, args, m, a, done)
    ensures m == |ps| ==> Shown(ps, args) == done
    ensures m < |ps| && TakesArg(ps[m]) ==>
      a < |args| && Suits(ps[m].conv, args[a]) && ToShow(ps, args, m + 1, a + 1, done + Converted(ps[m].conv, args[a]))
    ensures m < |ps| && !TakesArg(ps[m]) ==> ToShow(ps, args, m + 1, a, done + Fixed(ps[m]))
  {
    hide Converted, Fixed, Suits, Takes, Suited, Shown;
    if m == |ps| {
      ShownNothing(args[a..]);
      assert ps[m..] == [];
    } else {
      Tail(ps, m);
      ShownFirst(ps[m..], args[a..]);
      if TakesArg(ps[m]) {
        Tail(args, a);
        Associate(done, Converted(ps[m].conv, args[a]), Shown(ps[m + 1..], args[a + 1..]));
      } else {
        Associate(done, Fixed(ps[m]), Shown(ps[m + 1..], args[a..]));
      }
    }
  }

  lemma ShownNothing(args: seq<Arg>)
    ensures Suited([], args) && Shown([], args) == []
  {
  }

  /** One piece of the format. */
  method PutPiece(buf: array<byte>, p: nat, end: nat, num: array<byte>, fmt: seq<byte>, k: nat, args: seq<Arg>, a: nat,
                  ghost ps: seq<Piece>, ghost m: nat, ghost done: seq<byte>)
      returns (q: nat, j: nat, b: nat, ghost next: seq<byte>)
    requires Holds(buf[..], p, end, done) && p < end && num.Length == 32 && num != buf
    requires WellFormed(ps) && Suited(ps, args) && m < |ps| && k < |fmt|
    requires Remaining(fmt, k, ps, m) && ToShow(ps, args, m, a, done)
    modifies buf, num
    ensures Holds(buf[..], q, end, next) && q >= p && buf[q..] == old(buf[q..])
    ensures Remaining(fmt, j, ps, m + 1) && ToShow(ps, args, m + 1, b, next)
  {
    hide Holds, Remaining, ToShow, Converted, Suits, Suited, Shown, Scan, Source, AtPlace;
    NextPiece(fmt, k, ps, m);
    NextShown(ps, args, m, a, done);
    PieceStarts(fmt, k, ps[m]);
    if fmt[k] != 37 {
      q := PutByte(buf, p, end, fmt[k], done);
      j, b, next := k + 1, a, done + Fixed(ps[m]);
      return;
    }
    var c, last := ScanDirective(fmt, k + 1);
    ScanReads(fmt, k, ps[m]);
    j := last + 1;
    if Takes(c.spec) {
      q := PutConverted(buf, p, end, num, c, args[a], done);
      b, next := a + 1, done + Converted(c, args[a]);
    } else {
      q := PutText(buf, p, end, if c.spec == 37 then [37] else [37, c.spec], done);
      b, next := a, done + Fixed(ps[m]);
    }
  }

  /** A percent sign starts directives and nothing else. */
  lemma PieceStarts(fmt: seq<byte>, k: nat, p: Piece)
    requires PieceShape(p) && AtPlace(fmt, k, Source(p)) && k < |fmt|
    ensures fmt[k] == 37 <==> p.Directive?
    ensures p.Literal? ==> fmt[k] == p.c && |Source(p)| == 1
  {
    AtChar(fmt, k, Source(p), 0);
  }

  lemma Starts(b: seq<byte>, end: nat, fmt: seq<byte>, args: seq<Arg>, ps: seq<Piece>)
    requires end < |b| && fmt == Sources(ps) && Suited(ps, args)
    ensures Holds(b, 0, end, []) && Remaining(fmt, 0, ps, 0) && ToShow(ps, args, 0, 0, [])
  {
    hide Sources, Suited, Shown;
    assert fmt[0..] == fmt && ps[0..] == ps && args[0..] == args && b[..0] == [];
  }

  lemma TailShrinks(a: seq<byte>, b: seq<byte>, i: nat, j: nat)
    requires i <= j <= |a| == |b| && a[i..] == b[i..]
    ensures a[j..] == b[j..]
  {
    assert a[j..] == a[i..][j - i..] && b[j..] == b[i..][j - i..];
  }

  lemma ToShowMeans(ps: seq<Piece>, args: seq<Arg>, m: nat, a: nat, done: seq<byte>)
    requires Suited(ps, args) && ToShow(ps, args, m, a, done)
    ensures m <= |ps| && a <= |args| && Suited(ps[m..], args[a..]) && Shown(ps, args) == done + Shown(ps[m..], args[a..])
  {
  }

  lemma HoldsMeans(b: seq<byte>, p: nat, end: nat, text: seq<byte>)
    requires Holds(b, p, end, text)
    ensures p <= end < |b| && b[..p] == Cut(text, end)
  {
  }

  /**
   * `kvsnprintf`: for every well-formed format and suitable arguments, the buffer holds the first
   * `size - 1` characters of the unbounded expansion and a terminator; behind it nothing is written.
   */
  method Kvsnprintf(buf: array<byte>, size: nat, fmt: seq<byte>, args: seq<Arg>, ghost ps: seq<Piece>) returns (n: nat)
    requires 1 <= size <= buf.Length && WellFormed(ps) && fmt == Sources(ps) && Suited(ps, args)
    modifies buf
    ensures n < size && buf[..n] == Cut(Shown(ps, args), size - 1) && buf[n] == 0
    ensures buf[n + 1..] == old(buf[n + 1..])
  {
    hide WellFormed, Sources, Suited, Shown, Remaining, ToShow, Holds, Cut;
    Starts(buf[..], size - 1, fmt, args, ps);
    var p: nat, end: nat, k: nat, a: nat := 0, size - 1, 0, 0;
    var num := new byte[32];
    ghost var m: nat, done := 0, [];
    while k < |fmt| && p < end
      invariant Holds(buf[..], p, end, done) && fresh(num) && num.Length == 32
      invariant Remaining(fmt, k, ps, m) && ToShow(ps, args, m, a, done)
      invariant p <= end && buf[p..] == old(buf[..])[p..]
      decreases |ps| - m
    {
      NextPiece(fmt, k, ps, m);
      ghost var q0, was := p, buf[..];
      p, k, a, done := PutPiece(buf, p, end, num, fmt, k, args, a, ps, m, done);
      m := m + 1;
      HoldsInside(buf[..], p, end, done);
      TailShrinks(was, old(buf[..]), q0, p);
    }
    NextPiece(fmt, k, ps, m);
    NextShown(ps, args, m, a, done);
    HoldsInside(buf[..], p, end, done);
    if k < |fmt| {
      ToShowMeans(ps, args, m, a, done);
      FullStays(buf[..], p, end, done, Shown(ps[m..], args[a..]));
    }
    HoldsMeans(buf[..], p, end, Shown(ps, args));
    TailShrinks(buf[..], old(buf[..]), p, p + 1);
    n := p;
    Terminate(buf, n);
  }
}
