/** The kernel's formatter: numbers as text, and formatting into a bounded buffer. */
module Printk {
  import opened Bytes

  // Numbers

  /** The two bases the formatter uses. */
  datatype Base = Decimal | Hex(upper: bool)

  function Radix(b: Base): nat { if b.Decimal? then 10 else 16 }
  function High(v: nat, b: Base): nat { if b.Decimal? then v / 10 else v / 16 }
  function Low(v: nat, b: Base): nat { if b.Decimal? then v % 10 else v % 16 }

  function Digit(d: nat, b: Base): byte
    requires d < 16
  {
    if d < 10 then 48 + d else if b == Hex(true) then 55 + d else 87 + d
  }

  /** The value of a digit character. */
  function DigitValue(c: byte): nat {
    if 48 <= c <= 57 then c - 48 else if 65 <= c <= 70 then c - 55 else if 97 <= c <= 102 then c - 87 else 0
  }

  /** The digits of a number, none for zero. */
  function Positional(v: nat, b: Base): (s: seq<byte>)
    ensures s == [] <==> v == 0
  {
    if v == 0 then [] else Positional(High(v, b), b) + [Digit(Low(v, b), b)]
  }

  function Numeral(v: nat, b: Base): seq<byte> { if v == 0 then [48] else Positional(v, b) }

  /** What `itoa` writes. */
  function Text(v: int, b: Base): seq<byte> { if v < 0 then [45] + Numeral(-v, b) else Numeral(v, b) }

  /** The number that a string of digits denotes. */
  function Value(s: seq<byte>, b: Base): nat {
    if s == [] then 0 else Value(s[..|s| - 1], b) * Radix(b) + DigitValue(s[|s| - 1])
  }

  function Read(s: seq<byte>, b: Base): int {
    if s != [] && s[0] == 45 then (var n: int := Value(s[1..], b); -n) else Value(s, b)
  }

  function Pow(r: nat, k: nat): nat { if k == 0 then 1 else Pow(r, k - 1) * r }

  lemma {:induction false} PositionalReads(v: nat, b: Base)
    ensures Value(Positional(v, b), b) == v
    ensures v > 0 ==> DigitValue(Positional(v, b)[0]) != 0 && Positional(v, b)[0] != 45
    decreases v
  {
    if v > 0 {
      PositionalReads(High(v, b), b);
      var s := Positional(High(v, b), b);
      assert Positional(v, b)[..|s|] == s;
      assert b.Decimal? ==> v == High(v, b) * 10 + Low(v, b);
    }
  }

  /** A number's text reads back as the number and has no leading zero. */
  lemma TextReads(v: int, b: Base)
    ensures Read(Text(v, b), b) == v
    ensures
      var digits := if v < 0 then Text(v, b)[1..] else Text(v, b);
      |digits| > 0 && (|digits| > 1 ==> digits[0] != 48)
  {
    var n: nat := if v < 0 then -v else v;
    PositionalReads(n, b);
    if v == 0 {
      assert Text(v, b)[..0] == [];
    } else if v < 0 {
      assert Text(v, b)[1..] == Positional(n, b);
    }
  }

  lemma {:induction false} PositionalFits(v: nat, b: Base, k: nat)
    requires v < Pow(Radix(b), k)
    ensures |Positional(v, b)| <= k
    decreases k
  {
    if v > 0 {
      assert b.Decimal? ==> v / 10 < Pow(10, k - 1);
      assert b.Hex? ==> v / 16 < Pow(16, k - 1);
      PositionalFits(High(v, b), b, k - 1);
    }
  }

  /** Texts of 64-bit numbers fit the scratch buffer of 32 bytes with room to spare. */
  lemma NumeralFits(v: nat, b: Base)
    requires v < 0x1_0000_0000_0000_0000
    ensures 0 < |Numeral(v, b)| <= 20
  {
    if b.Decimal? {
      assert Pow(10, 5) == 100000;
      assert Pow(10, 10) == 10000000000;
      assert Pow(10, 15) == 1000000000000000;
      assert Pow(10, 20) == 100000000000000000000;
      PositionalFits(v, b, 20);
    } else {
      assert Pow(16, 4) == 0x1_0000;
      assert Pow(16, 8) == 0x1_0000_0000;
      assert Pow(16, 12) == 0x1_0000_0000_0000;
      assert Pow(16, 16) == 0x1_0000_0000_0000_0000;
      PositionalFits(v, b, 16);
    }
  }

  function Reversed(s: seq<byte>): (r: seq<byte>)
    ensures |r| == |s| && forall i :: 0 <= i < |s| ==> r[i] == s[|s| - 1 - i]
  {
    seq(|s|, i requires 0 <= i < |s| => s[|s| - 1 - i])
  }

  /** `reverse` */
  method Reverse(a: array<byte>, len: nat)
    requires len <= a.Length
    modifies a
    ensures a[..len] == Reversed(old(a[..len])) && a[len..] == old(a[len..])
  {
    var i, j := 0, len - 1;
    while i < j
      invariant 0 <= i <= len && j == len - 1 - i && i <= j + 1
      invariant forall k :: 0 <= k < i ==> a[k] == old(a[len - 1 - k]) && a[len - 1 - k] == old(a[k])
      invariant forall k :: i <= k <= j ==> a[k] == old(a[k])
      invariant a[len..] == old(a[len..])
    {
      a[i], a[j] := a[j], a[i];
      i, j := i + 1, j - 1;
    }
    ghost var was := old(a[..len]);
    forall k | 0 <= k < len ensures a[k] == was[len - 1 - k] {
      assert k > j ==> a[len - 1 - (len - 1 - k)] == a[k];
    }
  }

  /** The conversion of a signed to an unsigned 64-bit number. */
  function Unsigned64(v: int): (u: nat)
    requires -0x8000_0000_0000_0000 <= v < 0x8000_0000_0000_0000
    ensures u < 0x1_0000_0000_0000_0000
  {
    if v < 0 then v + 0x1_0000_0000_0000_0000 else v
  }

  /** The conversion of an unsigned to a signed 64-bit number. */
  function Signed64(v: nat): (r: int)
    requires v < 0x1_0000_0000_0000_0000
    ensures -0x8000_0000_0000_0000 <= r < 0x8000_0000_0000_0000 && Unsigned64(r) == v
  {
    if v < 0x8000_0000_0000_0000 then v else v - 0x1_0000_0000_0000_0000
  }

  lemma PositionalStep(u: nat, b: Base)
    requires u > 0
    ensures High(u, b) < u && Low(u, b) < 16
    ensures Positional(u, b) == Positional(High(u, b), b) + [Digit(Low(u, b), b)]
  {
  }

  lemma ReversedGrows(s: seq<byte>, c: byte)
    ensures Reversed(s + [c]) == [c] + Reversed(s)
  {
  }

  /** The digit loop of `itoa`: the least digit comes first. */
  method PutDigits(u0: nat, b: Base, buf: array<byte>) returns (i: nat)
    requires buf.Length == 32 && 0 < u0 < 0x1_0000_0000_0000_0000
    modifies buf
    ensures 0 < i <= 20 && Reversed(buf[..i]) == Positional(u0, b)
  {
    hide High, Low, Digit, Positional, Reversed;
    NumeralFits(u0, b);
    i := 0;
    var u := u0;
    assert Reversed(buf[..0]) == [];
    while u != 0
      invariant i <= 20 && |Positional(u, b)| + i <= 20
      invariant Positional(u0, b) == Positional(u, b) + Reversed(buf[..i])
      decreases u
    {
      PositionalStep(u, b);
      ghost var was := buf[..i];
      buf[i] := Digit(Low(u, b), b);
      assert buf[..i + 1] == was + [buf[i]];
      ReversedGrows(was, buf[i]);
      u := High(u, b);
      i := i + 1;
    }
  }

  /** The number without its sign, still backwards. */
  method PutNumeral(u: nat, b: Base, buf: array<byte>) returns (i: nat)
    requires buf.Length == 32 && u < 0x1_0000_0000_0000_0000
    modifies buf
    ensures 0 < i <= 20 && Reversed(buf[..i]) == Numeral(u, b)
  {
    hide Positional;
    if u == 0 {
      buf[0] := 48;
      i := 1;
      assert buf[..1] == [48];
      assert Reversed([48]) == [48];
    } else {
      i := PutDigits(u, b, buf);
    }
  }

  /** `itoa`, for every value but, if signs count, the most negative one, which has no negation. */
  method Itoa(val: int, buf: array<byte>, b: Base, signed: bool) returns (i: nat)
    requires buf.Length == 32 && -0x8000_0000_0000_0000 <= val < 0x8000_0000_0000_0000
    requires signed ==> val != -0x8000_0000_0000_0000
    modifies buf
    ensures i < 32 && buf[i] == 0
    ensures buf[..i] == Text(if signed then val else Unsigned64(val), b)
  {
    hide Numeral, Reversed;
    var uval := if signed && val < 0 then -val else Unsigned64(val);
    i := PutNumeral(uval, b, buf);
    if signed && val < 0 {
      ghost var digits := buf[..i];
      buf[i] := 45;
      i := i + 1;
      assert buf[..i] == digits + [45];
      ReversedGrows(digits, 45);
    }
    Terminate(buf, i);
    Reverse(buf, i);
    assert buf[i] == buf[i..][0];
  }

  method Terminate(buf: array<byte>, i: nat)
    requires i < buf.Length
    modifies buf
    ensures buf[i] == 0 && buf[..i] == old(buf[..i]) && buf[i + 1..] == old(buf[i + 1..])
  {
    buf[i] := 0;
  }

  /** `utoa`: the value passes through a signed parameter unharmed. */
  method Utoa(val: nat, buf: array<byte>, b: Base) returns (i: nat)
    requires buf.Length == 32 && val < 0x1_0000_0000_0000_0000
    modifies buf
    ensures i < 32 && buf[i] == 0 && buf[..i] == Text(val, b)
  {
    hide Numeral;
    i := Itoa(Signed64(val), buf, b, false);
  }
}
