/** Allocation bitmaps: bit `i` of a byte string is bit `i % 8` of byte `i / 8`. */
module Bitmap {
  import opened Bytes
  import opened Arith

  function Pow2(n: nat): (p: nat)
    ensures p >= 1
  {
    if n == 0 then 1 else 2 * Pow2(n - 1)
  }

  /** `b & (1 << k)` is nonzero. */
  predicate TestBit(b: nat, k: nat)
  {
    if k == 0 then b % 2 == 1 else TestBit(b / 2, k - 1)
  }

  /** Bit `k` is the one of weight 2 to the `k`. */
  lemma {:induction false} TestBitIs(b: nat, k: nat)
    ensures TestBit(b, k) <==> b / Pow2(k) % 2 == 1
  {
    if k > 0 {
      TestBitIs(b / 2, k - 1);
      HalveThenDivide(b, Pow2(k - 1));
    }
  }

  lemma HalveThenDivide(b: nat, p: nat)
    requires p > 0
    ensures b / 2 / p == b / (2 * p)
  {
    hide Quot, Rem, Times;
    var q, r := Quot(b / 2, p), Rem(b / 2, p);
    QuotRem(b / 2, p);
    TimesTwice(q, p);
    QuotUnique(q, 2 * p, 2 * r + b % 2);
    QuotIs(b / 2, p);
    QuotIs(b, 2 * p);
  }

  lemma {:induction false} TimesTwice(q: nat, p: nat)
    ensures Times(q, 2 * p) == 2 * Times(q, p)
  {
    if q > 0 {
      TimesTwice(q - 1, p);
    }
  }

  /** `b | (1 << k)` */
  function OrBit(b: nat, k: nat): (r: nat)
  {
    if k == 0 then b / 2 * 2 + 1 else OrBit(b / 2, k - 1) * 2 + b % 2
  }

  /** `b & ~(1 << k)` */
  function AndNotBit(b: nat, k: nat): (r: nat)
    ensures r <= b
  {
    if k == 0 then b / 2 * 2 else AndNotBit(b / 2, k - 1) * 2 + b % 2
  }

  lemma {:induction false} OrBitFits(b: nat, k: nat, n: nat)
    requires b < Pow2(n) && k < n
    ensures OrBit(b, k) < Pow2(n)
  {
    var half := Pow2(n - 1);
    assert Pow2(n) == 2 * half;
    if k > 0 {
      OrBitFits(b / 2, k - 1, n - 1);
      var r := OrBit(b / 2, k - 1);
      assert OrBit(b, k) == r * 2 + b % 2;
    }
  }

  lemma {:induction false} OrBitAt(b: nat, k: nat, j: nat)
    ensures TestBit(OrBit(b, k), j) == (j == k || TestBit(b, j))
  {
    if k > 0 && j > 0 {
      OrBitAt(b / 2, k - 1, j - 1);
    }
  }

  lemma {:induction false} AndNotBitAt(b: nat, k: nat, j: nat)
    ensures TestBit(AndNotBit(b, k), j) == (j != k && TestBit(b, j))
  {
    if k > 0 && j > 0 {
      AndNotBitAt(b / 2, k - 1, j - 1);
    }
  }

  lemma {:induction false} OrAndNot(b: nat, k: nat)
    ensures !TestBit(b, k) ==> AndNotBit(OrBit(b, k), k) == b
    ensures TestBit(b, k) ==> OrBit(AndNotBit(b, k), k) == b
    ensures !TestBit(AndNotBit(b, k), k)
  {
    if k > 0 {
      OrAndNot(b / 2, k - 1);
      var c, d := OrBit(b, k), AndNotBit(b, k);
      assert c / 2 == OrBit(b / 2, k - 1) && c % 2 == b % 2;
      assert d / 2 == AndNotBit(b / 2, k - 1) && d % 2 == b % 2;
    }
  }

  lemma {:induction false} AllOnes(n: nat, k: nat)
    requires k < n
    ensures TestBit(Pow2(n) - 1, k)
  {
    assert (Pow2(n) - 1) / 2 == Pow2(n - 1) - 1;
    if k > 0 {
      AllOnes(n - 1, k - 1);
    }
  }

  lemma {:induction false} SomeZero(b: nat, n: nat) returns (k: nat)
    requires b < Pow2(n) - 1
    ensures k < n && !TestBit(b, k)
  {
    if b % 2 == 0 {
      k := 0;
    } else {
      k := SomeZero(b / 2, n - 1);
      k := k + 1;
    }
  }

  /** A byte is 0xFF exactly when none of its eight bits is clear. */
  lemma FullByte(b: byte)
    ensures b == 255 <==> forall k: nat :: k < 8 ==> TestBit(b, k)
  {
    Pow2Of8();
    if b == 255 {
      forall k: nat | k < 8 ensures TestBit(b, k) { AllOnes(8, k); }
    } else {
      var k := SomeZero(b, 8);
    }
  }

  lemma Pow2Of8()
    ensures Pow2(8) == 256
  {
    assert Pow2(4) == 16;
  }

  predicate Bit(bm: seq<byte>, i: nat)
    requires i < 8 * |bm|
  {
    TestBit(bm[i / 8], i % 8)
  }

  function SetBit(bm: seq<byte>, i: nat): (r: seq<byte>)
    requires i < 8 * |bm|
    ensures |r| == |bm|
  {
    Pow2Of8();
    OrBitFits(bm[i / 8], i % 8, 8);
    bm[i / 8 := OrBit(bm[i / 8], i % 8)]
  }

  function ClearBit(bm: seq<byte>, i: nat): (r: seq<byte>)
    requires i < 8 * |bm|
    ensures |r| == |bm|
  {
    bm[i / 8 := AndNotBit(bm[i / 8], i % 8)]
  }

  lemma SetBitAt(bm: seq<byte>, i: nat, j: nat)
    requires i < 8 * |bm| && j < 8 * |bm|
    ensures Bit(SetBit(bm, i), j) == (j == i || Bit(bm, j))
  {
    if i / 8 == j / 8 {
      OrBitAt(bm[i / 8], i % 8, j % 8);
    }
  }

  lemma ClearBitAt(bm: seq<byte>, i: nat, j: nat)
    requires i < 8 * |bm| && j < 8 * |bm|
    ensures Bit(ClearBit(bm, i), j) == (j != i && Bit(bm, j))
  {
    if i / 8 == j / 8 {
      AndNotBitAt(bm[i / 8], i % 8, j % 8);
    }
  }

  /** Clearing inverts setting, and setting inverts clearing. */
  lemma SetClear(bm: seq<byte>, i: nat)
    requires i < 8 * |bm|
    ensures !Bit(bm, i) ==> ClearBit(SetBit(bm, i), i) == bm
    ensures Bit(bm, i) ==> !Bit(ClearBit(bm, i), i) && SetBit(ClearBit(bm, i), i) == bm
  {
    var b := bm[i / 8];
    OrAndNot(b, i % 8);
    assert bm[i / 8 := b] == bm;
  }

  /** The number of clear bits among the first `n`. */
  function CountClear(bm: seq<byte>, n: nat): (c: nat)
    requires n <= 8 * |bm|
    ensures c <= n
  {
    if n == 0 then 0 else CountClear(bm, n - 1) + if Bit(bm, n - 1) then 0 else 1
  }

  lemma {:induction false} CountClearSet(bm: seq<byte>, i: nat, n: nat)
    requires n <= 8 * |bm| && i < 8 * |bm| && !Bit(bm, i)
    ensures CountClear(SetBit(bm, i), n) == CountClear(bm, n) - if i < n then 1 else 0
  {
    if n > 0 {
      CountClearSet(bm, i, n - 1);
      SetBitAt(bm, i, n - 1);
    }
  }

  lemma {:induction false} CountClearZero(bm: seq<byte>, n: nat)
    requires n <= 8 * |bm|
    ensures CountClear(bm, n) == 0 <==> forall i: nat :: i < n ==> Bit(bm, i)
  {
    if n > 0 {
      CountClearZero(bm, n - 1);
    }
  }

  /** The least clear bit in `[from, n)`, or `n` when there is none. */
  function FirstClear(bm: seq<byte>, from: nat, n: nat): (i: nat)
    requires from <= n <= 8 * |bm|
    ensures from <= i <= n
    ensures i < n ==> !Bit(bm, i)
    ensures forall j: nat :: from <= j < i ==> Bit(bm, j)
    decreases n - from
  {
    if from == n || !Bit(bm, from) then from else FirstClear(bm, from + 1, n)
  }
}
