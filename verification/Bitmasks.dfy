/**
  `struct bitmask`: a bit size and an array of 64-bit words, seen as a set of numbers.
 */
module Bitmasks {
  import opened Sets
  import opened Words

  /** Words needed for n bits: longsperbits(n), which is also CPU_LONGS(n). */
  function LongsPerBits(n: nat): nat {
    (n + 63) / 64
  }

  /** Bit i of an array of words, bit 0 being the low bit of word 0. */
  predicate InWords(w: seq<Word>, i: nat) {
    i / 64 < |w| && Bit(w[i / 64], i % 64)
  }

  /** The bits below size that are set. */
  function Members(w: seq<Word>, size: nat): set<nat> {
    set i: nat | i < size && InWords(w, i)
  }

  /** No bit at or above size is set in the words. */
  ghost predicate TailZero(w: seq<Word>, size: nat) {
    forall i: nat :: size <= i ==> !InWords(w, i)
  }

  function ZeroWords(n: nat): (w: seq<Word>)
    ensures |w| == n && forall k :: 0 <= k < n ==> w[k] == 0
  {
    seq(n, _ => 0)
  }

  lemma ZeroWordsEmpty(w: seq<Word>, i: nat)
    requires forall k :: 0 <= k < |w| ==> w[k] == 0
    ensures !InWords(w, i)
  {
    ZeroBits(i % 64);
  }

  /** Writing one bit of a word array changes that bit and no other. */
  lemma PutInWords(w: seq<Word>, n: nat, v: bool, i: nat)
    requires n / 64 < |w|
    ensures PutBit(w[n / 64], n % 64, v) < ULONG_MODULUS
    ensures InWords(w[n / 64 := PutBit(w[n / 64], n % 64, v)], i) <==> if i == n then v else InWords(w, i)
  {
    Pow2Constants();
    PutBitWidth(w[n / 64], n % 64, v, 64);
    PutBitBit(w[n / 64], n % 64, v, i % 64);
  }

  lemma PutMember(w: seq<Word>, w': seq<Word>, size: nat, n: nat, v: bool)
    requires forall i: nat :: InWords(w', i) <==> if i == n && n < size then v else InWords(w, i)
    ensures Members(w', size) ==
              if n >= size then Members(w, size) else if v then Members(w, size) + {n} else Members(w, size) - {n}
  {
    hide InWords;
  }

  lemma MembersNext(w: seq<Word>, size: nat, i: nat)
    requires i < size
    ensures Members(w, 0) == {}
    ensures Members(w, i + 1) == Members(w, i) + if i in Members(w, size) then {i} else {}
  {
    hide InWords;
  }

  /** Two word arrays of the same length with the same bits are the same array. */
  lemma SameWords(w: seq<Word>, v: seq<Word>)
    requires |w| == |v|
    requires forall i: nat :: i < 64 * |w| ==> (InWords(w, i) <==> InWords(v, i))
    ensures w == v
  {
    forall k | 0 <= k < |w|
      ensures w[k] == v[k]
    {
      Pow2Constants();
      forall i | 0 <= i < 64
        ensures Bit(w[k], i) <==> Bit(v[k], i)
      {
        var n := 64 * k + i;
        assert n / 64 == k && n % 64 == i;
        assert InWords(w, n) <==> InWords(v, n);
      }
      SameBits(w[k], v[k], 64);
    }
  }

  /** What memcpy/memset leave in the target of copy_bitmask_to_bitmask. */
  function CopyWords(from: seq<Word>, n: nat): (to: seq<Word>)
    ensures |to| == n
    ensures forall k :: 0 <= k < n ==> to[k] == if k < |from| then from[k] else 0
  {
    if n <= |from| then from[..n] else from + ZeroWords(n - |from|)
  }

  lemma CopyInWords(from: seq<Word>, n: nat, i: nat)
    ensures InWords(CopyWords(from, n), i) <==> i / 64 < n && InWords(from, i)
  {
    ZeroBits(i % 64);
  }

  /** A copy keeps the source's members below the target's size exactly when the source has no stray
      bits between the two sizes: whole words are moved, so a stray bit would surface in the target. */
  lemma CopyKeepsMembers(from: seq<Word>, fromSize: nat, toSize: nat)
    ensures Members(CopyWords(from, LongsPerBits(toSize)), toSize) ==
              (set i | i in Members(from, fromSize) && i < toSize)
       <==> forall i: nat :: fromSize <= i < toSize ==> !InWords(from, i)
  {
    var to := CopyWords(from, LongsPerBits(toSize));
    forall i: nat | i < toSize
      ensures InWords(to, i) <==> InWords(from, i)
    {
      CopyInWords(from, LongsPerBits(toSize), i);
    }
    var kept := set i | i in Members(from, fromSize) && i < toSize;
    if Members(to, toSize) == kept {
      forall i: nat | fromSize <= i < toSize
        ensures !InWords(from, i)
      {
        assert i !in kept;
        assert i !in Members(to, toSize);
      }
    }
    if forall i: nat :: fromSize <= i < toSize ==> !InWords(from, i) {
      assert Members(to, toSize) == kept;
    }
  }

  /** For example, the stray bit 1 of a mask of size 1 becomes a member of a copy of size 2. */
  lemma StrayBitSurfaces()
    ensures Members([2], 1) == {} && Members(CopyWords([2], LongsPerBits(2)), 2) == {1}
  {
    assert !Bit(2, 0) && Bit(2, 1);
    assert CopyWords([2], LongsPerBits(2)) == [2];
    assert InWords([2], 1) && !InWords([2], 0);
  }

  class Bitmask {
    const size: nat
    const maskp: array<Word>

    ghost predicate Valid() {
      size >= 1 && maskp.Length == LongsPerBits(size)
    }

    ghost function Bits(): set<nat>
      reads maskp
    {
      Members(maskp[..], size)
    }

    /** numa_bitmask_alloc; the library refuses n < 1. */
    constructor (n: nat)
      requires n >= 1
      ensures Valid() && size == n && fresh(maskp)
      ensures maskp[..] == ZeroWords(LongsPerBits(n))
      ensures Bits() == {} && TailZero(maskp[..], n)
    {
      size := n;
      maskp := new Word[LongsPerBits(n)](_ => 0);
      new;
      forall i: nat
        ensures !InWords(maskp[..], i)
      {
        ZeroWordsEmpty(maskp[..], i);
      }
    }

    /** numa_bitmask_isbitset */
    predicate IsBitSet(n: nat)
      requires Valid()
      reads maskp
      ensures IsBitSet(n) <==> n in Bits()
    {
      n < size && Bit(maskp[n / 64], n % 64)
    }

    /** _setbit */
    method SetBit(n: nat, v: bool)
      requires Valid()
      modifies maskp
      ensures forall i: nat :: InWords(maskp[..], i) <==> if i == n && n < size then v else old(InWords(maskp[..], i))
      ensures Bits() == if n >= size then old(Bits()) else if v then old(Bits()) + {n} else old(Bits()) - {n}
    {
      ghost var w := maskp[..];
      if n < size {
        PutInWords(w, n, v, n);
        maskp[n / 64] := PutBit(maskp[n / 64], n % 64, v);
      }
      forall i: nat
        ensures InWords(maskp[..], i) <==> if i == n && n < size then v else InWords(w, i)
      {
        if n < size {
          PutInWords(w, n, v, i);
          assert maskp[..] == w[n / 64 := PutBit(w[n / 64], n % 64, v)];
        }
      }
      PutMember(w, maskp[..], size, n, v);
    }

    /** numa_bitmask_setall (v) and numa_bitmask_clearall (!v) */
    method SetAll(v: bool)
      requires Valid()
      modifies maskp
      ensures forall i: nat :: InWords(maskp[..], i) <==> if i < size then v else old(InWords(maskp[..], i))
      ensures Bits() == if v then Below(size) else {}
    {
      for i := 0 to size
        invariant forall j: nat :: InWords(maskp[..], j) <==> if j < i then v else old(InWords(maskp[..], j))
      {
        SetBit(i, v);
      }
    }

    /** numa_bitmask_weight */
    method Weight() returns (w: nat)
      requires Valid()
      ensures w == |Bits()|
    {
      hide InWords;
      w := 0;
      for i := 0 to size
        invariant w == |Members(maskp[..], i)|
      {
        MembersNext(maskp[..], size, i);
        if IsBitSet(i) { w := w + 1; }
      }
    }

    /** numa_bitmask_equal: the same members, whatever the two sizes are. */
    method Equal(that: Bitmask) returns (eq: bool)
      requires Valid() && that.Valid()
      ensures eq <==> Bits() == that.Bits()
    {
      var i := 0;
      while i < size || i < that.size
        invariant forall j: nat :: j < i ==> (j in Bits() <==> j in that.Bits())
        decreases size + that.size - i
      {
        if IsBitSet(i) != that.IsBitSet(i) {
          assert i in Bits() + that.Bits() && (i in Bits() <==> i !in that.Bits());
          return false;
        }
        i := i + 1;
      }
      assert forall j :: j in Bits() <==> j in that.Bits();
      return true;
    }

    /** find_first: the least member, or -1. */
    method FindFirst() returns (r: int)
      requires Valid()
      ensures r == -1 <==> Bits() == {}
      ensures r != -1 ==> 0 <= r && r in Bits() && forall j :: j in Bits() ==> r <= j
    {
      for i := 0 to size
        invariant forall j: nat :: j < i ==> j !in Bits()
      {
        if IsBitSet(i) { return i; }
      }
      return -1;
    }

    /** copy_bitmask_to_bitmask */
    method CopyTo(to: Bitmask)
      requires Valid() && to.Valid() && maskp != to.maskp
      modifies to.maskp
      ensures to.maskp[..] == CopyWords(maskp[..], to.maskp.Length)
      ensures to.Bits() == Members(maskp[..], to.size)
    {
      var n := to.maskp.Length;
      for k := 0 to n
        invariant forall j :: 0 <= j < k ==> to.maskp[j] == if j < maskp.Length then maskp[j] else 0
      {
        to.maskp[k] := if k < maskp.Length then maskp[k] else 0;
      }
      assert to.maskp[..] == CopyWords(maskp[..], n);
      forall i: nat | i < to.size
        ensures InWords(to.maskp[..], i) <==> InWords(maskp[..], i)
      {
        CopyInWords(maskp[..], n, i);
      }
    }

    /** The kernel, or a caller, fills the mask. */
    method Load(w: seq<Word>)
      requires Valid() && |w| == maskp.Length
      modifies maskp
      ensures maskp[..] == w
    {
      for k := 0 to |w|
        invariant maskp[..k] == w[..k]
      {
        maskp[k] := w[k];
      }
    }
  }
}
