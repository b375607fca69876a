/** A 64-bit word, the machine expressions the kernels apply to it, and the set of bit positions it
    denotes. Every function body is the machine expression; its `ensures` says what it does to the set. */
module Word64 {

  /** The integers of [lo, hi). */
  function Range(lo: nat, hi: nat): (s: set<nat>)
    ensures forall k: nat :: k in s <==> lo <= k < hi
    ensures |s| == if lo < hi then hi - lo else 0
    decreases hi
  {
    if hi <= lo then {} else Range(lo, hi - 1) + {hi - 1}
  }

  lemma SubsetIsNoLarger<T>(a: set<T>, b: set<T>)
    requires a <= b
    ensures |a| <= |b|
    ensures |a| == |b| ==> a == b
  {
    assert b == a + (b - a);
    assert |b| == |a| + |b - a|;
  }

  // ---- bit positions -----------------------------------------------------------------------------

  /** One octal digit of a bit position as a machine word. */
  function Octal(d: nat): bv64
    requires d < 8
  {
    match d case 0 => 0 case 1 => 1 case 2 => 2 case 3 => 3 case 4 => 4 case 5 => 5 case 6 => 6 case _ => 7
  }

  /** The bit position k as a shift amount. */
  function Shift(k: nat): (i: bv64)
    requires k < 64
    ensures i < 64
  {
    (Octal(k / 8) << 3) | Octal(k % 8)
  }

  lemma ShiftIsMonotone(j: nat, k: nat)
    requires j < k < 64
    ensures Shift(j) < Shift(k)
  {
    if j / 8 == k / 8 {
      assert j % 8 < k % 8;
    } else {
      assert j / 8 < k / 8;
    }
  }

  lemma ShiftOfNext(k: nat)
    requires k < 63
    ensures Shift(k + 1) == Shift(k) + 1
  {
    if k % 8 == 7 {
      assert (k + 1) / 8 == k / 8 + 1 && (k + 1) % 8 == 0;
    } else {
      assert (k + 1) / 8 == k / 8 && (k + 1) % 8 == k % 8 + 1;
    }
  }

  /** Whether bit i of w is set. */
  predicate Bit(w: bv64, i: bv64)
    requires i < 64
  {
    (w >> i) & 1 == 1
  }

  /** The bit positions set in w. */
  function Bits(w: bv64): (s: set<nat>)
    ensures s <= Range(0, 64)
  {
    set k: nat | k < 64 && Bit(w, Shift(k))
  }

  /** The number of set bits (std::popcount). */
  function PopCount(w: bv64): (n: nat)
    ensures n <= 64
  {
    hide Bits;
    SubsetIsNoLarger(Bits(w), Range(0, 64));
    |Bits(w)|
  }

  // ---- bitwise operators -------------------------------------------------------------------------

  // One bit of each operator, for a bit position given as a machine word.
  lemma BitOfAnd(a: bv64, b: bv64, i: bv64)
    requires i < 64
    ensures Bit(a & b, i) == (Bit(a, i) && Bit(b, i))
  {
  }

  lemma BitOfOr(a: bv64, b: bv64, i: bv64)
    requires i < 64
    ensures Bit(a | b, i) == (Bit(a, i) || Bit(b, i))
  {
  }

  lemma BitOfAndNot(a: bv64, b: bv64, i: bv64)
    requires i < 64
    ensures Bit(a & !b, i) == (Bit(a, i) && !Bit(b, i))
  {
  }

  lemma BitOfXor(a: bv64, b: bv64, i: bv64)
    requires i < 64
    ensures Bit(a ^ b, i) == (Bit(a, i) != Bit(b, i))
  {
  }

  lemma BitsOfAnd(a: bv64, b: bv64)
    ensures Bits(a & b) == Bits(a) * Bits(b)
  {
    hide Shift, Bit;
    forall k: nat | k < 64 ensures k in Bits(a & b) <==> k in Bits(a) * Bits(b) {
      BitOfAnd(a, b, Shift(k));
    }
  }

  lemma BitsOfOr(a: bv64, b: bv64)
    ensures Bits(a | b) == Bits(a) + Bits(b)
  {
    hide Shift, Bit;
    forall k: nat | k < 64 ensures k in Bits(a | b) <==> k in Bits(a) + Bits(b) {
      BitOfOr(a, b, Shift(k));
    }
  }

  lemma BitsOfAndNot(a: bv64, b: bv64)
    ensures Bits(a & !b) == Bits(a) - Bits(b)
  {
    hide Shift, Bit;
    forall k: nat | k < 64 ensures k in Bits(a & !b) <==> k in Bits(a) - Bits(b) {
      BitOfAndNot(a, b, Shift(k));
    }
  }

  lemma BitsOfXor(a: bv64, b: bv64)
    ensures Bits(a ^ b) == (Bits(a) - Bits(b)) + (Bits(b) - Bits(a))
  {
    hide Shift, Bit;
    var x := a ^ b;
    forall k: nat | k < 64 ensures k in Bits(x) <==> ((k in Bits(a)) != (k in Bits(b))) {
      BitOfXor(a, b, Shift(k));
    }
  }

  function And(a: bv64, b: bv64): (r: bv64)
    ensures Bits(r) == Bits(a) * Bits(b)
  {
    hide Bits;
    BitsOfAnd(a, b);
    a & b
  }

  function Or(a: bv64, b: bv64): (r: bv64)
    ensures Bits(r) == Bits(a) + Bits(b)
  {
    hide Bits;
    BitsOfOr(a, b);
    a | b
  }

  function AndNot(a: bv64, b: bv64): (r: bv64)
    ensures Bits(r) == Bits(a) - Bits(b)
  {
    hide Bits;
    BitsOfAndNot(a, b);
    a & !b
  }

  function Xor(a: bv64, b: bv64): (r: bv64)
    ensures Bits(r) == (Bits(a) - Bits(b)) + (Bits(b) - Bits(a))
  {
    hide Bits;
    BitsOfXor(a, b);
    a ^ b
  }

  lemma BitsOfZero()
    ensures Bits(0) == {}
  {
    hide Shift;
    forall k: nat | k < 64 ensures k !in Bits(0) {
      BitOfZero(Shift(k));
    }
  }

  lemma BitOfZero(i: bv64)
    requires i < 64
    ensures !Bit(0, i)
  {
  }

  // ---- masks -------------------------------------------------------------------------------------

  // The three masks as expressions over a shift amount.
  function SingleMask(b: bv64): bv64
    requires b < 64
  {
    (1 as bv64) << b
  }

  function UpperMask(b: bv64): bv64
    requires b < 64
  {
    0 - ((1 as bv64) << b)
  }

  function LowerMask(b: bv64): bv64
    requires b < 64
  {
    ((2 as bv64) << b) - 1
  }

  lemma BitOfSingleMask(b: bv64, i: bv64)
    requires b < 64 && i < 64
    ensures Bit(SingleMask(b), i) <==> i == b
  {
  }

  lemma BitOfUpperMask(b: bv64, i: bv64)
    requires b < 64 && i < 64
    ensures Bit(UpperMask(b), i) <==> b <= i
  {
  }

  lemma BitOfComplement(a: bv64, i: bv64)
    requires i < 64
    ensures Bit(!a, i) == !Bit(a, i)
  {
  }

  lemma LowerIsComplement(b: bv64)
    requires b < 63
    ensures LowerMask(b) == !UpperMask(b + 1)
  {
  }

  lemma LowerIsDecrement(b: bv64)
    requires b < 63
    ensures LowerMask(b) == SingleMask(b + 1) - 1
  {
  }

  /** The shift of 2 by 63 wraps to 0, and 0 - 1 is all ones. */
  lemma LowerMaskWraps()
    ensures LowerMask(63) == 0xFFFF_FFFF_FFFF_FFFF == !0
  {
  }

  lemma BitOfFullMask(i: bv64)
    requires i < 64
    ensures Bit(LowerMask(63), i)
  {
    hide LowerMask, Bit;
    LowerMaskWraps();
    BitOfComplement(0, i);
    BitOfZero(i);
  }

  lemma BitOfPartialMask(b: bv64, i: bv64)
    requires b < 63 && i < 64
    ensures Bit(LowerMask(b), i) <==> !(b + 1 <= i)
  {
    hide LowerMask, UpperMask, Bit;
    var upper := UpperMask(b + 1);
    assert LowerMask(b) == !upper by {
      LowerIsComplement(b);
    }
    assert Bit(!upper, i) == !Bit(upper, i) by {
      BitOfComplement(upper, i);
    }
    BitOfUpperMask(b + 1, i);
  }

  lemma BitOfLowerMask(b: bv64, i: bv64)
    requires b < 64 && i < 64
    ensures Bit(LowerMask(b), i) <==> i <= b
  {
    hide LowerMask, Bit;
    if b == 63 {
      BitOfFullMask(i);
    } else {
      BitOfPartialMask(b, i);
    }
  }

  lemma ShiftOrder(j: nat, k: nat)
    requires j < 64 && k < 64
    ensures j <= k <==> Shift(j) <= Shift(k)
    ensures j == k <==> Shift(j) == Shift(k)
  {
    hide Shift;
    if j < k {
      ShiftIsMonotone(j, k);
    } else if k < j {
      ShiftIsMonotone(k, j);
    }
  }

  /** The mask of one value's bit. */
  function OneBit(b: nat): (r: bv64)
    requires b < 64
    ensures Bits(r) == {b}
  {
    hide Shift, SingleMask, Bits;
    BitsOfOneBit(b);
    SingleMask(Shift(b))
  }

  lemma BitsOfOneBit(b: nat)
    requires b < 64
    ensures Bits(SingleMask(Shift(b))) == {b}
  {
    hide Shift, Bit, SingleMask;
    forall k: nat | k < 64 ensures k in Bits(SingleMask(Shift(b))) <==> k == b {
      BitOfSingleMask(Shift(b), Shift(k));
      ShiftOrder(k, b);
    }
  }

  /** Bits b..63, as one shift and one subtraction. */
  function FirstMask(b: nat): (r: bv64)
    requires b < 64
    ensures Bits(r) == Range(b, 64)
  {
    hide Shift, UpperMask, Bits;
    BitsOfFirstMask(b);
    UpperMask(Shift(b))
  }

  lemma BitsOfFirstMask(b: nat)
    requires b < 64
    ensures Bits(UpperMask(Shift(b))) == Range(b, 64)
  {
    hide Shift, Bit, UpperMask;
    forall k: nat | k < 64 ensures k in Bits(UpperMask(Shift(b))) <==> b <= k {
      BitOfUpperMask(Shift(b), Shift(k));
      ShiftOrder(b, k);
    }
  }

  lemma UpperMaskForms(b: bv64)
    requires b < 64
    ensures UpperMask(b) == 0xFFFF_FFFF_FFFF_FFFF << b
  {
  }

  /** Bits b..63, as a shifted all-ones word. */
  function FirstMaskByShift(b: nat): (r: bv64)
    requires b < 64
    ensures r == FirstMask(b)
  {
    hide Shift, UpperMask, Bits;
    UpperMaskForms(Shift(b));
    0xFFFF_FFFF_FFFF_FFFF << Shift(b)
  }

  /** Bits 0..b without a branch for a full word. */
  function LastMask(b: nat): (r: bv64)
    requires b < 64
    ensures Bits(r) == Range(0, b + 1)
  {
    hide Shift, LowerMask, Bits;
    BitsOfLastMask(b);
    LowerMask(Shift(b))
  }

  lemma BitsOfLastMask(b: nat)
    requires b < 64
    ensures Bits(LowerMask(Shift(b))) == Range(0, b + 1)
  {
    hide Shift, Bit, LowerMask;
    forall k: nat | k < 64 ensures k in Bits(LowerMask(Shift(b))) <==> k <= b {
      BitOfLowerMask(Shift(b), Shift(k));
      ShiftOrder(k, b);
    }
  }

  lemma ShiftOf63()
    ensures Shift(63) == 63
  {
  }

  /** Bits 0..b with the branch for a full word. */
  function LastMaskByBranch(b: nat): (r: bv64)
    requires b < 64
    ensures r == LastMask(b)
  {
    hide Shift, LowerMask, SingleMask, UpperMask, Bits;
    ShiftOf63();
    LowerMaskWraps();
    if b == 63 then 0xFFFF_FFFF_FFFF_FFFF
    else (
      ShiftOfNext(b);
      ShiftIsMonotone(b, 63);
      LowerIsDecrement(Shift(b));
      SingleMask(Shift(b + 1)) - 1
    )
  }

  /** Whether bit k of w is set, by a shift. */
  predicate TestBit(w: bv64, k: nat): (r: bool)
    requires k < 64
    ensures r <==> k in Bits(w)
  {
    Bit(w, Shift(k))
  }

  /** Whether bit k of w is set, by a mask. */
  predicate TestMask(w: bv64, k: nat): (r: bool)
    requires k < 64
    ensures r <==> k in Bits(w)
  {
    hide Bits, Shift, And, OneBit;
    var m := And(w, OneBit(k));
    assert (k in Bits(w)) <==> Bits(m) != {} by {
      assert Bits(m) == Bits(w) * {k};
      if k in Bits(w) {
        assert k in Bits(m);
      }
    }
    BitsAndZero(m);
    m != 0
  }

  // ---- the lowest set bit ------------------------------------------------------------------------

  /** Whether w has no bit below position i. */
  predicate ClearBelow(w: bv64, i: bv64)
    requires i < 64
  {
    w & (SingleMask(i) - 1) == 0
  }

  lemma ClearBelowNext(w: bv64, i: bv64)
    requires i < 63 && ClearBelow(w, i) && !Bit(w, i)
    ensures ClearBelow(w, i + 1)
  {
  }

  lemma ClearBelowAll(w: bv64)
    requires ClearBelow(w, 63) && !Bit(w, 63)
    ensures w == 0
  {
  }

  lemma NotYetAtTheTop(w: bv64, k: nat)
    requires w != 0 && k < 64 && ClearBelow(w, Shift(k)) && !Bit(w, Shift(k))
    ensures k < 63
  {
    hide Shift, Bit, ClearBelow;
    if k == 63 {
      ShiftOf63();
      ClearBelowAll(w);
    }
  }

  lemma ClearBelowMeans(w: bv64, i: bv64, j: bv64)
    requires j < i < 64 && ClearBelow(w, i)
    ensures !Bit(w, j)
  {
  }

  lemma ClearBelowFirst(w: bv64)
    ensures ClearBelow(w, Shift(0))
  {
  }

  lemma DropLowestBit(w: bv64, i: bv64)
    requires i < 64 && Bit(w, i) && ClearBelow(w, i)
    ensures w & (w - 1) == w & !SingleMask(i)
  {
  }

  /** Searches upwards from bit k, below which w is clear. */
  function TrailingZerosFrom(w: bv64, k: nat): (z: nat)
    requires w != 0 && k < 64
    requires ClearBelow(w, Shift(k))
    ensures z < 64 && Bit(w, Shift(z)) && ClearBelow(w, Shift(z))
    decreases 64 - k
  {
    hide Shift, Bit, ClearBelow;
    if Bit(w, Shift(k)) then k
    else (
      NotYetAtTheTop(w, k);
      ShiftOf63();
      ShiftIsMonotone(k, 63);
      ClearBelowNext(w, Shift(k));
      ShiftOfNext(k);
      TrailingZerosFrom(w, k + 1)
    )
  }

  /** The lowest set bit position (std::countr_zero of a nonzero word). */
  function TrailingZeros(w: bv64): (z: nat)
    requires w != 0
    ensures z in Bits(w)
    ensures forall k :: k in Bits(w) ==> z <= k
  {
    hide Shift, Bit, ClearBelow;
    ClearBelowFirst(w);
    LowestBit(w);
    TrailingZerosFrom(w, 0)
  }

  lemma LowestBit(w: bv64)
    requires w != 0 && ClearBelow(w, Shift(0))
    ensures TrailingZerosFrom(w, 0) in Bits(w)
    ensures forall k :: k in Bits(w) ==> TrailingZerosFrom(w, 0) <= k
  {
    hide Shift, Bit, ClearBelow;
    var z := TrailingZerosFrom(w, 0);
    forall k: nat | k < z ensures k !in Bits(w) {
      ShiftIsMonotone(k, z);
      ClearBelowMeans(w, Shift(z), Shift(k));
    }
  }

  lemma BitsOfClearLowest(w: bv64)
    requires w != 0
    ensures Bits(w & (w - 1)) == Bits(w) - {TrailingZeros(w)}
  {
    hide Shift, Bit, ClearBelow, Bits;
    ClearBelowFirst(w);
    var z := TrailingZerosFrom(w, 0);
    DropLowestBit(w, Shift(z));
    BitsOfAndNot(w, SingleMask(Shift(z)));
    BitsOfOneBit(z);
  }

  /** The word without its lowest set bit; zero stays zero, although zero minus one wraps. */
  function ClearLowest(w: bv64): (r: bv64)
    ensures w == 0 ==> r == 0
    ensures w != 0 ==> Bits(r) == Bits(w) - {TrailingZeros(w)}
  {
    hide Shift, Bit, ClearBelow, Bits, TrailingZeros;
    if w != 0 then BitsOfClearLowest(w); w & (w - 1) else w & (w - 1)
  }

  lemma BitsAndZero(w: bv64)
    ensures w == 0 <==> Bits(w) == {}
  {
    hide Bits;
    if w == 0 {
      BitsOfZero();
    } else {
      assert TrailingZeros(w) in Bits(w);
    }
  }

  lemma XorIsZero(a: bv64, b: bv64)
    ensures a ^ b == 0 ==> a == b
  {
  }

  /** A word is determined by its set bits. */
  lemma BitsDetermineWord(a: bv64, b: bv64)
    requires Bits(a) == Bits(b)
    ensures a == b
  {
    hide Bits;
    BitsOfXor(a, b);
    BitsAndZero(a ^ b);
    XorIsZero(a, b);
  }

  lemma BitsOfAllOnes()
    ensures Bits(0xFFFF_FFFF_FFFF_FFFF) == Range(0, 64)
  {
    hide Bits, Shift, LowerMask;
    BitsOfLastMask(63);
    ShiftOf63();
    LowerMaskWraps();
  }
}
