/** Results that may be missing. */
module Wrappers {

  datatype Option<+T> = None | Some(value: T) {
    function GetOr(default: T): T {
      match this
      case Some(v) => v
      case None => default
    }
  }
}

/** Bytes, byte strings and the integer encodings that the kernel reads and writes. */
module Bytes {

  type byte = x: int | 0 <= x < 256

  type u16 = x: int | 0 <= x < 0x1_0000
  type u32 = x: int | 0 <= x < 0x1_0000_0000

  /** An ASCII digit. */
  predicate IsDigit(c: byte) { 48 <= c <= 57 }

  /** Unsigned wrap-around to 16 bits, as C assignment to `uint16_t` does it. */
  function Wrap16(x: int): (r: u16)
    ensures 0 <= x < 0x1_0000 ==> r == x
  {
    x % 0x1_0000
  }

  /** Unsigned wrap-around to 32 bits. */
  function Wrap32(x: int): (r: u32)
    ensures 0 <= x < 0x1_0000_0000 ==> r == x
  {
    x % 0x1_0000_0000
  }

  /** The result of laying `d` over `s` at offset `o`. */
  function Splice(s: seq<byte>, o: nat, d: seq<byte>): (r: seq<byte>)
    requires o + |d| <= |s|
    ensures |r| == |s|
    ensures forall i {:trigger r[i]} :: 0 <= i < |s| ==> r[i] == if o <= i < o + |d| then d[i - o] else s[i]
  {
    s[..o] + d + s[o + |d|..]
  }

  function Zeros(n: nat): (r: seq<byte>)
    ensures |r| == n && forall i :: 0 <= i < n ==> r[i] == 0
  {
    seq(n, _ => 0)
  }

  // Little-endian fields, as the on-disk ext4 structures hold them.

  function U16(s: seq<byte>, o: nat): u16
    requires o + 2 <= |s|
  {
    (s[o] as int) + 256 * (s[o + 1] as int)
  }

  function U32(s: seq<byte>, o: nat): u32
    requires o + 4 <= |s|
  {
    (s[o] as int) + 256 * (s[o + 1] as int) + 0x1_0000 * (s[o + 2] as int) + 0x100_0000 * (s[o + 3] as int)
  }

  /** The number that bytes give, the least significant one first. */
  function Little(s: seq<byte>): nat {
    if s == [] then 0 else s[0] + 256 * Little(s[1..])
  }

  lemma LittleFields(s: seq<byte>, o: nat)
    ensures o + 2 <= |s| ==> U16(s, o) == Little(s[o..o + 2])
    ensures o + 4 <= |s| ==> U32(s, o) == Little(s[o..o + 4])
  {
    if o + 2 <= |s| {
      LittleStep(s, o, 2);
      LittleStep(s, o + 1, 1);
    }
    if o + 4 <= |s| {
      LittleStep(s, o, 4);
      LittleStep(s, o + 1, 3);
      LittleStep(s, o + 2, 2);
      LittleStep(s, o + 3, 1);
    }
  }

  lemma LittleStep(s: seq<byte>, o: nat, n: nat)
    requires 0 < n && o + n <= |s|
    ensures Little(s[o..o + n]) == s[o] as int + 256 * Little(s[o + 1..o + n])
    ensures n == 1 ==> Little(s[o + 1..o + n]) == 0
  {
    assert s[o..o + n][1..] == s[o + 1..o + n];
  }

  function Le16(x: u16): (r: seq<byte>)
    ensures |r| == 2 && U16(r, 0) == x
  {
    [x % 256, x / 256]
  }

  function Le32(x: u32): (r: seq<byte>)
    ensures |r| == 4 && U32(r, 0) == x
  {
    var b, c := x / 256, x / 0x1_0000;
    assert x == 256 * b + x % 256;
    assert b == 256 * c + b % 256;
    assert c == 256 * (x / 0x100_0000) + c % 256;
    [x % 256, b % 256, c % 256, x / 0x100_0000]
  }

  function PutU16(s: seq<byte>, o: nat, x: u16): (r: seq<byte>)
    requires o + 2 <= |s|
    ensures |r| == |s| && U16(r, o) == x
    ensures forall i {:trigger r[i]} :: 0 <= i < |s| && !(o <= i < o + 2) ==> r[i] == s[i]
  {
    var r := Splice(s, o, Le16(x));
    assert r[o] == Le16(x)[0] && r[o + 1] == Le16(x)[1];
    r
  }

  function PutU32(s: seq<byte>, o: nat, x: u32): (r: seq<byte>)
    requires o + 4 <= |s|
    ensures |r| == |s| && U32(r, o) == x
    ensures forall i {:trigger r[i]} :: 0 <= i < |s| && !(o <= i < o + 4) ==> r[i] == s[i]
  {
    var r := Splice(s, o, Le32(x));
    assert r[o] == Le32(x)[0] && r[o + 1] == Le32(x)[1] && r[o + 2] == Le32(x)[2] && r[o + 3] == Le32(x)[3];
    r
  }

  /** Writing one aligned 32-bit slot of a pointer table leaves every other slot alone. */
  lemma PutU32Slots(s: seq<byte>, base: nat, k: nat, x: u32)
    requires base + 4 * k + 4 <= |s|
    ensures forall j: nat {:trigger U32(PutU32(s, base + 4 * k, x), base + 4 * j)} ::
      base + 4 * j + 4 <= |s| ==>
        U32(PutU32(s, base + 4 * k, x), base + 4 * j) == if j == k then x else U32(s, base + 4 * j)
  {
    var r := PutU32(s, base + 4 * k, x);
    forall j: nat | base + 4 * j + 4 <= |s|
      ensures U32(r, base + 4 * j) == if j == k then x else U32(s, base + 4 * j)
    {
      if j != k {
        var o := base + 4 * j;
        assert r[o] == s[o] && r[o + 1] == s[o + 1] && r[o + 2] == s[o + 2] && r[o + 3] == s[o + 3];
      }
    }
  }
}

/**
 * Products, quotients and remainders of two run-time values, written by repeated addition and
 * subtraction so that no proof meets nonlinear arithmetic unasked. `TimesIs` and `QuotIs` say
 * that they are the usual operators.
 */
module Arith {

  function Times(a: nat, b: nat): nat {
    if a == 0 then 0 else Times(a - 1, b) + b
  }

  function Quot(x: nat, d: nat): nat
    requires d > 0
  {
    if x < d then 0 else 1 + Quot(x - d, d)
  }

  function Rem(x: nat, d: nat): (r: nat)
    requires d > 0
    ensures r < d
  {
    if x < d then x else Rem(x - d, d)
  }

  lemma {:induction false} TimesIs(a: nat, b: nat)
    ensures Times(a, b) == a * b
  {
    if a > 0 {
      TimesIs(a - 1, b);
      assert a * b == (a - 1) * b + b;
    }
  }

  lemma {:induction false} QuotIs(x: nat, d: nat)
    requires d > 0
    ensures Quot(x, d) == x / d && Rem(x, d) == x % d
  {
    QuotRem(x, d);
    TimesIs(Quot(x, d), d);
    DivModUnique(Quot(x, d), d, Rem(x, d));
  }

  lemma DivModUnique(q: nat, d: nat, r: nat)
    requires r < d
    ensures (q * d + r) / d == q && (q * d + r) % d == r
  {
    var x := q * d + r;
    var k, m := x / d, x % d;
    assert x == k * d + m && 0 <= m < d;
    if k < q {
      MulMonotone(k + 1, q, d);
    } else if q < k {
      MulMonotone(q + 1, k, d);
    }
  }

  lemma MulMonotone(a: int, b: int, d: nat)
    requires a <= b
    ensures a * d <= b * d && a * d == (a - 1) * d + d
  {
    assert b * d == a * d + (b - a) * d;
  }

  lemma {:induction false} QuotRem(x: nat, d: nat)
    requires d > 0
    ensures x == Times(Quot(x, d), d) + Rem(x, d)
  {
    if x >= d {
      QuotRem(x - d, d);
    }
  }

  lemma {:induction false} QuotUnique(q: nat, d: nat, r: nat)
    requires r < d
    ensures Quot(Times(q, d) + r, d) == q && Rem(Times(q, d) + r, d) == r
  {
    if q > 0 {
      QuotUnique(q - 1, d, r);
    }
  }

  lemma {:induction false} QuotBelow(x: nat, d: nat, n: nat)
    requires d > 0 && x < Times(n, d)
    ensures Quot(x, d) < n
  {
    if x >= d {
      QuotBelow(x - d, d, n - 1);
    }
  }

  lemma {:induction false} TimesMonotone(a: nat, b: nat, d: nat)
    requires a <= b
    ensures Times(a, d) <= Times(b, d)
  {
    if a < b {
      TimesMonotone(a, b - 1, d);
    }
  }
}
