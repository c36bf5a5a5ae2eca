/**
  The Mersenne twister of the RANDOM2 benchmark: a buffer of 624 words refilled in place, against the
  infinite sequence it is meant to produce.
 */
module MersenneTwister {

  const MT_LEN: nat := 624
  const MT_IA: nat := 397
  const MT_IB: nat := MT_LEN - MT_IA
  const UPPER_MASK: bv32 := 0x80000000
  const LOWER_MASK: bv32 := 0x7FFFFFFF
  const MATRIX_A: bv32 := 0x9908B0DF

  function Twist(x: bv32, y: bv32): bv32 {
    (x & UPPER_MASK) | (y & LOWER_MASK)
  }

  function Magic(s: bv32): bv32 {
    (s & 1) * MATRIX_A
  }

  /** far ^ (s >> 1) ^ MAGIC(s) for s = TWIST of two neighbours */
  function Mix(far: bv32, x: bv32, y: bv32): bv32 {
    var s := Twist(x, y);
    far ^ (s >> 1) ^ Magic(s)
  }

  type Seed = s: seq<bv32> | |s| == MT_LEN witness seq(MT_LEN, _ => 0)

  /** The sequence itself: x[k + 624] is x[k + 397] mixed with x[k] and x[k + 1]. */
  function X(seed: Seed, n: nat): bv32 {
    if n < MT_LEN then seed[n] else Mix(X(seed, n - MT_LEN + MT_IA), X(seed, n - MT_LEN), X(seed, n - MT_LEN + 1))
  }

  lemma XStep(seed: Seed, n: nat)
    ensures X(seed, n + MT_LEN) == Mix(X(seed, n + MT_IA), X(seed, n), X(seed, n + 1))
  {
    hide Mix;
  }

  /** What comes 624 places behind x, with y the next word and far the one 397 places on: the top bit of x and the
      other bits of y, moved down by one place, and the coefficients if the lowest bit of y falls out, all added
      without carry to far. */
  ghost predicate Follows(x: bv32, y: bv32, far: bv32, r: bv32) {
    r == far ^ ((x & 0x80000000) >> 1) ^ ((y & 0x7FFFFFFE) >> 1) ^ (if y & 1 == 1 then 0x9908B0DF else 0)
  }

  /** The sequence starts with the seed and goes on with the recurrence. */
  lemma Recurrence(seed: Seed, n: nat)
    ensures n < 624 ==> X(seed, n) == seed[n]
    ensures Follows(X(seed, n), X(seed, n + 1), X(seed, n + 397), X(seed, n + 624))
  {
    XStep(seed, n);
    MixFollows(X(seed, n), X(seed, n + 1), X(seed, n + 397));
    if n < 624 { XStart(seed, n); }
    hide X, Mix, Follows;
  }

  lemma XStart(seed: Seed, n: nat)
    requires n < 624
    ensures X(seed, n) == seed[n]
  {
  }

  lemma MixFollows(x: bv32, y: bv32, far: bv32)
    ensures Follows(x, y, far, Mix(far, x, y))
  {
    LowBit(Twist(x, y));
    TwistLow(x, y);
    TwistHigh(x, y);
    hide Twist, Magic;
    XorRegroup(far, (x & 0x80000000) >> 1, (y & 0x7FFFFFFE) >> 1, if y & 1 == 1 then 0x9908B0DF else 0);
  }

  lemma TwistLow(x: bv32, y: bv32)
    ensures Twist(x, y) & 1 == y & 1
  {
  }

  lemma TwistHigh(x: bv32, y: bv32)
    ensures Twist(x, y) >> 1 == ((x & 0x80000000) >> 1) ^ ((y & 0x7FFFFFFE) >> 1)
  {
  }

  lemma XorRegroup(f: bv32, a: bv32, b: bv32, m: bv32)
    ensures f ^ (a ^ b) ^ m == f ^ a ^ b ^ m
  {
  }

  lemma LowBit(s: bv32)
    ensures Magic(s) == if s & 1 == 1 then 0x9908B0DF else 0
  {
    assert s & 1 == 0 || s & 1 == 1;
    TimesBit(s & 1);
  }

  lemma TimesBit(b: bv32)
    requires b == 0 || b == 1
    ensures b * MATRIX_A == if b == 1 then 0x9908B0DF else 0
  {
    if b == 0 { assert (0 as bv32) * MATRIX_A == 0; } else { assert (1 as bv32) * MATRIX_A == MATRIX_A; }
  }

  class Generator {
    const buffer: array<bv32>
    var index: nat           // mt_index, counted in bytes
    ghost var seed: Seed
    ghost var base: nat      // place in the sequence of the buffer's first word

    /** The buffer is a window of the sequence. */
    ghost predicate Window(from: nat)
      reads this, buffer
    {
      buffer.Length == MT_LEN && forall i :: 0 <= i < MT_LEN ==> buffer[i] == X(seed, from + i)
    }

    ghost predicate Valid()
      reads this, buffer
    {
      Window(base) && index % 4 == 0 && index <= 4 * MT_LEN
    }

    /** Words handed out so far. */
    ghost function Count(): nat
      reads this
    {
      base + index / 4
    }

    /** mt_init; what rand() returned is given. */
    constructor (rands: Seed)
      ensures Valid() && fresh(buffer) && seed == rands && Count() == 0
    {
      buffer := new bv32[MT_LEN](i requires 0 <= i < MT_LEN => rands[i]);
      index := 0;
      seed := rands;
      base := 0;
    }

    /** mt_refill: the window moves on by a whole buffer, although each word is overwritten while others
        still depend on the old and the new values. */
    method Refill()
      requires Window(base)
      modifies this`index, this`base, buffer
      ensures index == 0 && base == old(base) + MT_LEN && Window(base)
    {
      hide Mix, X;
      index := 0;
      RefillFront();
      RefillBack();
      XStep(seed, base + MT_LEN - 1);
      buffer[MT_LEN - 1] := Mix(buffer[MT_IA - 1], buffer[MT_LEN - 1], buffer[0]);
      base := base + MT_LEN;
    }

    /** The words whose partners are still the old ones. */
    method RefillFront()
      requires Shifted(0)
      modifies buffer
      ensures Shifted(MT_IB)
    {
      hide Mix, X;
      var b := buffer;
      var i := 0;
      while i < MT_IB
        invariant 0 <= i <= MT_IB && Shifted(i)
      {
        XStep(seed, base + i);
        b[i] := Mix(b[i + MT_IA], b[i], b[i + 1]);
        i := i + 1;
      }
    }

    /** The words whose partners are new already, but for the last one, whose neighbour is new as well. */
    method RefillBack()
      requires Shifted(MT_IB)
      modifies buffer
      ensures Shifted(MT_LEN - 1)
    {
      hide Mix, X;
      var b := buffer;
      var i := MT_IB;
      while i < MT_LEN - 1
        invariant MT_IB <= i <= MT_LEN - 1 && Shifted(i)
      {
        XStep(seed, base + i);
        b[i] := Mix(b[i - MT_IB], b[i], b[i + 1]);
        i := i + 1;
      }
    }

    /** The first i words belong to the next window, the others still to this one. */
    ghost predicate Shifted(i: nat)
      reads this, buffer
    {
      && buffer.Length == MT_LEN
      && forall j :: 0 <= j < MT_LEN ==> buffer[j] == X(seed, if j < i then base + MT_LEN + j else base + j)
    }

    /** mt_random: the next word of the sequence. */
    method Random() returns (r: bv32)
      requires Valid()
      modifies this`index, this`base, buffer
      ensures Valid() && r == X(seed, old(Count())) && Count() == old(Count()) + 1
    {
      hide X;
      var idx := index;
      if idx == MT_LEN * 4 {
        Refill();
        idx := 0;
      }
      index := index + 4;
      r := buffer[idx / 4];
    }
  }

  /** The first n words drawn from a fresh generator are the first n words of the sequence, however many
      refills that takes. */
  method Draw(rands: Seed, n: nat) returns (out: seq<bv32>)
    ensures |out| == n && forall k :: 0 <= k < n ==> out[k] == X(rands, k)
    ensures forall k :: 0 <= k < n && k < 624 ==> out[k] == rands[k]
    ensures forall k :: 0 <= k < n - 624 ==> Follows(out[k], out[k + 1], out[k + 397], out[k + 624])
  {
    hide X, Follows;
    var g := new Generator(rands);
    out := [];
    for k := 0 to n
      invariant g.Valid() && g.seed == rands && g.Count() == k && fresh(g) && fresh(g.buffer)
      invariant |out| == k && forall j :: 0 <= j < k ==> out[j] == X(rands, j)
    {
      var r := g.Random();
      out := out + [r];
    }
    forall k: nat
      ensures k < 624 ==> X(rands, k) == rands[k]
      ensures Follows(X(rands, k), X(rands, k + 1), X(rands, k + 397), X(rands, k + 624))
    {
      Recurrence(rands, k);
    }
  }
}
