/**
  Unsigned machine words as numbers, with their bits read off by repeated halving.
  Every operation the library does on a word is given here together with what it does to each bit.
 */
module Words {

  const ULONG_MODULUS: nat := 0x1_0000_0000_0000_0000
  const UINT_MODULUS: nat := 0x1_0000_0000

  /** A 64-bit `unsigned long`. */
  type Word = x: nat | x < ULONG_MODULUS

  /** A 32-bit `unsigned int`. */
  type Half = x: nat | x < UINT_MODULUS

  function Pow2(n: nat): (r: nat)
    ensures r >= 1
  {
    if n == 0 then 1 else 2 * Pow2(n - 1)
  }

  /** Bit i of x. */
  predicate Bit(x: nat, i: nat) {
    if i == 0 then x % 2 == 1 else Bit(x / 2, i - 1)
  }

  /** x >> n */
  function ShiftRight(x: nat, n: nat): (r: nat)
    ensures r <= x
  {
    if n == 0 then x else ShiftRight(x / 2, n - 1)
  }

  /** x | y */
  function Or(x: nat, y: nat): (r: nat)
    decreases x + y
  {
    if x == 0 then y
    else if y == 0 then x
    else 2 * Or(x / 2, y / 2) + (if x % 2 == 1 || y % 2 == 1 then 1 else 0)
  }

  /** x & y */
  function And(x: nat, y: nat): (r: nat)
    ensures r <= x && r <= y
  {
    if x == 0 || y == 0 then 0
    else 2 * And(x / 2, y / 2) + (if x % 2 == 1 && y % 2 == 1 then 1 else 0)
  }

  /** x | 1 << i  when v, and  x & ~(1 << i)  otherwise */
  function PutBit(x: nat, i: nat, v: bool): (r: nat) {
    if i == 0 then x - x % 2 + (if v then 1 else 0)
    else 2 * PutBit(x / 2, i - 1, v) + x % 2
  }

  // ----- bits of the results -----

  lemma {:induction false} ZeroBits(i: nat)
    ensures !Bit(0, i)
  {
    if i > 0 { ZeroBits(i - 1); }
  }

  lemma {:induction false} OrBit(x: nat, y: nat, i: nat)
    ensures Bit(Or(x, y), i) <==> Bit(x, i) || Bit(y, i)
  {
    if x == 0 || y == 0 {
      ZeroBits(i);
    } else if i > 0 {
      OrBit(x / 2, y / 2, i - 1);
    }
  }

  lemma {:induction false} AndBit(x: nat, y: nat, i: nat)
    ensures Bit(And(x, y), i) <==> Bit(x, i) && Bit(y, i)
  {
    if x == 0 || y == 0 {
      ZeroBits(i);
    } else if i > 0 {
      AndBit(x / 2, y / 2, i - 1);
    }
  }

  lemma {:induction false} PutBitBit(x: nat, i: nat, v: bool, j: nat)
    ensures Bit(PutBit(x, i, v), j) <==> (if i == j then v else Bit(x, j))
  {
    if i > 0 && j > 0 { PutBitBit(x / 2, i - 1, v, j - 1); }
  }

  lemma {:induction false} ShiftRightBit(x: nat, n: nat, i: nat)
    ensures Bit(ShiftRight(x, n), i) <==> Bit(x, n + i)
  {
    if n > 0 { ShiftRightBit(x / 2, n - 1, i); }
  }

  /** The mask (1 << n) - 1 has exactly its low n bits set. */
  lemma {:induction false} LowMaskBit(n: nat, i: nat)
    ensures Bit(Pow2(n) - 1, i) <==> i < n
  {
    if n == 0 {
      ZeroBits(i);
    } else if i > 0 {
      assert (Pow2(n) - 1) / 2 == Pow2(n - 1) - 1;
      LowMaskBit(n - 1, i - 1);
    }
  }

  // ----- width -----

  lemma {:induction false} OrWidth(x: nat, y: nat, n: nat)
    requires x < Pow2(n) && y < Pow2(n)
    ensures Or(x, y) < Pow2(n)
  {
    if x != 0 && y != 0 { OrWidth(x / 2, y / 2, n - 1); }
  }

  lemma EvenBound(x: nat, a: nat)
    requires x < 2 * a
    ensures x - x % 2 + 1 < 2 * a
    ensures x / 2 < a
  {
  }

  lemma {:induction false} PutBitWidth(x: nat, i: nat, v: bool, n: nat)
    requires x < Pow2(n) && i < n
    ensures PutBit(x, i, v) < Pow2(n)
  {
    assert Pow2(n) == 2 * Pow2(n - 1);
    EvenBound(x, Pow2(n - 1));
    if i > 0 {
      PutBitWidth(x / 2, i - 1, v, n - 1);
      assert PutBit(x, i, v) == 2 * PutBit(x / 2, i - 1, v) + x % 2;
      hide Pow2, PutBit;
    } else {
      hide Pow2;
    }
  }

  lemma Pow2Monotone(m: nat, n: nat)
    requires m <= n
    ensures Pow2(m) <= Pow2(n)
  {
    if m < n { Pow2Monotone(m, n - 1); }
  }

  lemma Pow2Plus4(n: nat)
    ensures Pow2(n + 4) == 16 * Pow2(n)
  {
    assert Pow2(n + 2) == 4 * Pow2(n);
  }

  lemma Pow2Plus16(n: nat)
    ensures Pow2(n + 16) == 0x1_0000 * Pow2(n)
  {
    Pow2Plus4(n);
    Pow2Plus4(n + 4);
    Pow2Plus4(n + 8);
    Pow2Plus4(n + 12);
  }

  lemma Pow2Constants()
    ensures Pow2(32) == UINT_MODULUS
    ensures Pow2(64) == ULONG_MODULUS
  {
    Pow2Zero();
    hide Pow2;
    Pow2Plus16(0);
    Pow2Plus16(16);
    Pow2Plus16(32);
    Pow2Plus16(48);
  }

  lemma Pow2Zero()
    ensures Pow2(0) == 1
  {
  }

  /** Bits at or above the width are clear. */
  lemma {:induction false} HighBitsClear(x: nat, n: nat, i: nat)
    requires x < Pow2(n) && n <= i
    ensures !Bit(x, i)
  {
    if n == 0 {
      ZeroBits(i);
    } else {
      HighBitsClear(x / 2, n - 1, i - 1);
    }
  }

  /** A number below 2^n is determined by its low n bits. */
  lemma {:induction false} SameBits(x: nat, y: nat, n: nat)
    requires x < Pow2(n) && y < Pow2(n)
    requires forall i :: 0 <= i < n ==> (Bit(x, i) <==> Bit(y, i))
    ensures x == y
  {
    if n > 0 {
      assert Bit(x, 0) <==> Bit(y, 0);
      forall i | 0 <= i < n - 1
        ensures Bit(x / 2, i) <==> Bit(y / 2, i)
      {
        assert Bit(x, i + 1) <==> Bit(y, i + 1);
      }
      SameBits(x / 2, y / 2, n - 1);
    }
  }

  /** A nonzero number below 2^n has one of its low n bits set. */
  lemma {:induction false} NonzeroHasBit(x: nat, n: nat) returns (i: nat)
    requires 0 != x < Pow2(n)
    ensures i < n && Bit(x, i)
  {
    if x % 2 == 1 {
      i := 0;
    } else {
      i := NonzeroHasBit(x / 2, n - 1);
      i := i + 1;
    }
  }

  lemma Halve(l: nat, a: nat, h: nat)
    ensures (l + 2 * a * h) / 2 == l / 2 + a * h
    ensures (l + 2 * a * h) % 2 == l % 2
  {
    var x := a * h;
    assert 2 * a * h == 2 * x;
  }

  /** Placing h above the low n bits of l: bits below n come from l, the others from h. */
  lemma {:induction false} JoinBit(l: nat, h: nat, n: nat, i: nat)
    requires l < Pow2(n)
    ensures Bit(l + Pow2(n) * h, i) <==> (if i < n then Bit(l, i) else Bit(h, i - n))
  {
    if n > 0 {
      var a := Pow2(n - 1);
      Halve(l, a, h);
      assert Pow2(n) == 2 * a;
      if i > 0 { JoinBit(l / 2, h, n - 1, i - 1); }
    }
  }
}
