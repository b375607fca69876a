/** The fused in-place combine with a carry-save population count: sixteen registers of results are
    folded into counters of weight 1, 2, 4, 8 and 16, and only the last is counted each round. */
module HarleySeal {
  import opened Word64
  import opened WordSets
  import opened LazyCount
  import opened BitsetContainer

  // ---- the full adder ----------------------------------------------------------------------------

  /** The weight-2 part of a carry-save addition. */
  function High(a: bv64, b: bv64, c: bv64): bv64 {
    Or(And(a, b), And(Xor(a, b), c))
  }

  /** The weight-1 part. */
  function Low(a: bv64, b: bv64, c: bv64): bv64 {
    Xor(Xor(a, b), c)
  }

  lemma XorSize(a: set<nat>, b: set<nat>)
    ensures |(a - b) + (b - a)| + 2 * |a * b| == |a| + |b|
  {
    DifferenceSizes(a, b);
    assert a + b == b + (a - b);
    assert b * a == a * b;
    assert |b - a| + |a * b| == |b| by {
      assert b == (b - a) + (a * b);
    }
  }

  lemma FullAdder(a: bv64, b: bv64, c: bv64)
    ensures 2 * PopCount(High(a, b, c)) + PopCount(Low(a, b, c)) == PopCount(a) + PopCount(b) + PopCount(c)
  {
    hide Bits, Range, And, Or, Xor;
    var x, y, z := Bits(a), Bits(b), Bits(c);
    var u := (x - y) + (y - x);
    XorSize(x, y);
    XorSize(u, z);
    assert Bits(High(a, b, c)) == (x * y) + (u * z);
    assert (x * y) !! (u * z);
  }

  /** A register of lanes. */
  type Register = seq<bv64>

  function Highs(a: Register, b: Register, c: Register): Register
    requires |a| == |b| == |c|
  {
    seq(|a|, i requires 0 <= i < |a| => High(a[i], b[i], c[i]))
  }

  function Lows(a: Register, b: Register, c: Register): Register
    requires |a| == |b| == |c|
  {
    seq(|a|, i requires 0 <= i < |a| => Low(a[i], b[i], c[i]))
  }

  /** carry_save_add: a + b + c = 2h + l, counted over a whole register. */
  lemma {:induction false} CarrySaveAdd(a: Register, b: Register, c: Register)
    requires |a| == |b| == |c|
    ensures 2 * Count(Highs(a, b, c)) + Count(Lows(a, b, c)) == Count(a) + Count(b) + Count(c)
  {
    hide Bits, Range, High, Low, PopCount;
    if a != [] {
      var n := |a| - 1;
      CarrySaveAdd(a[..n], b[..n], c[..n]);
      FullAdder(a[n], b[n], c[n]);
      assert Highs(a, b, c)[..n] == Highs(a[..n], b[..n], c[..n]);
      assert Lows(a, b, c)[..n] == Lows(a[..n], b[..n], c[..n]);
    }
  }

  // ---- lane totals -------------------------------------------------------------------------------

  function Sum(lanes: seq<nat>): nat {
    if lanes == [] then 0 else Sum(lanes[..|lanes| - 1]) + lanes[|lanes| - 1]
  }

  function Weighted(n: nat, weight: nat): nat {
    n * weight
  }

  /** vector_popcount of a register, shifted left by `shift`, added lane by lane. */
  function AddPopCounts(total: seq<nat>, v: Register, weight: nat): (r: seq<nat>)
    requires |total| == |v|
    ensures |r| == |v|
  {
    seq(|v|, i requires 0 <= i < |v| => total[i] + Weighted(PopCount(v[i]), weight))
  }

  function Scaled(total: seq<nat>, weight: nat): (r: seq<nat>)
    ensures |r| == |total|
  {
    seq(|total|, i requires 0 <= i < |total| => Weighted(total[i], weight))
  }

  lemma {:induction false} SumOfAdded(total: seq<nat>, v: Register, weight: nat)
    requires |total| == |v|
    ensures Sum(AddPopCounts(total, v, weight)) == Sum(total) + Count(v) * weight
  {
    hide Bits, Range, PopCount;
    if v != [] {
      var n := |v| - 1;
      SumOfAdded(total[..n], v[..n], weight);
      assert AddPopCounts(total, v, weight)[..n] == AddPopCounts(total[..n], v[..n], weight);
      assert (Count(v[..n]) + PopCount(v[n])) * weight == Count(v[..n]) * weight + PopCount(v[n]) * weight;
    }
  }

  lemma {:induction false} SumOfScaled(total: seq<nat>, weight: nat)
    ensures Sum(Scaled(total, weight)) == Sum(total) * weight
  {
    if total != [] {
      var n := |total| - 1;
      SumOfScaled(total[..n], weight);
      assert Scaled(total, weight)[..n] == Scaled(total[..n], weight);
      assert (Sum(total[..n]) + total[n]) * weight == Sum(total[..n]) * weight + total[n] * weight;
    }
  }

  predicate LanesWithin(total: seq<nat>, limit: nat) {
    forall l :: 0 <= l < |total| ==> total[l] <= limit
  }

  /** No lane total is above the sum of the lanes. */
  lemma {:induction false} LanesWithinSum(total: seq<nat>, limit: nat)
    requires Sum(total) <= limit
    ensures LanesWithin(total, limit)
  {
    if total != [] {
      var n := |total| - 1;
      LanesWithinSum(total[..n], limit);
      assert forall l :: 0 <= l < n ==> total[l] == total[..n][l];
    }
  }

  /** total += vector_popcount( v ) << shift: as long as the counted bits are within the limit, so is every
      lane. */
  method AddLanes(total: seq<nat>, v: Register, weight: nat, ghost limit: nat) returns (r: seq<nat>)
    requires |total| == |v| && Sum(total) + Count(v) * weight <= limit
    ensures |r| == |v| && Sum(r) == Sum(total) + Count(v) * weight
    ensures LanesWithin(r, limit)
  {
    hide Bits, Range, PopCount, LanesWithin;
    SumOfAdded(total, v, weight);
    r := AddPopCounts(total, v, weight);
    LanesWithinSum(r, limit);
  }

  /** A register of zero lanes. */
  function Zeros(lanes: nat): (r: Register)
    ensures |r| == lanes
  {
    seq(lanes, _ => 0)
  }

  lemma {:induction false} CountOfZeros(lanes: nat)
    ensures Count(Zeros(lanes)) == 0
    ensures Sum(seq(lanes, _ => 0)) == 0
  {
    hide Bits, Range;
    BitsOfZero();
    if lanes > 0 {
      CountOfZeros(lanes - 1);
      assert Zeros(lanes)[..lanes - 1] == Zeros(lanes - 1);
      var total: seq<nat> := seq(lanes, _ => 0);
      assert total[..lanes - 1] == seq(lanes - 1, _ => 0);
    }
  }

  // ---- the tree ----------------------------------------------------------------------------------

  /** The bits stored by the first k combined words. */
  ghost function Held(op: SetOperation, a: seq<bv64>, b: seq<bv64>, k: nat): nat
    requires |a| == |b| && k <= |a|
  {
    Count(Front(op, a, b, k)[..k])
  }

  /** The block as the kernel finds it once k words are combined; the operand is a distinct block. */
  ghost predicate At(op: SetOperation, a: array<bv64>, b: array<bv64>, a0: seq<bv64>, b0: seq<bv64>, k: nat)
    reads a, b
  {
    a != b && k <= a.Length == b.Length == |a0| == |b0| && a[..] == Front(op, a0, b0, k) && b[..] == b0
  }

  lemma HeldGrows(op: SetOperation, a: seq<bv64>, b: seq<bv64>, k: nat, lanes: nat)
    requires |a| == |b| && k + lanes <= |a|
    ensures Held(op, a, b, k + lanes) == Held(op, a, b, k) + Count(Front(op, a, b, k + lanes)[k..k + lanes])
  {
    hide Bits, Range, ApplyWord, Count;
    var f := Front(op, a, b, k + lanes);
    assert f[..k] == Front(op, a, b, k)[..k];
    assert f[..k + lanes] == f[..k] + f[k..k + lanes];
    CountOfConcat(f[..k], f[k..k + lanes]);
  }

  /** Combines one register in place and yields it. */
  method CombineRegister(op: SetOperation, a: array<bv64>, b: array<bv64>, at: nat, lanes: nat,
                         ghost a0: seq<bv64>, ghost b0: seq<bv64>) returns (r: Register)
    requires At(op, a, b, a0, b0, at) && at + lanes <= a.Length
    modifies a
    ensures At(op, a, b, a0, b0, at + lanes)
    ensures |r| == lanes && Held(op, a0, b0, at + lanes) == Held(op, a0, b0, at) + Count(r)
  {
    hide Bits, Range, ApplyWord, Count;
    ghost var before := a[..];
    forall l | at <= l < at + lanes {
      a[l] := ApplyWord(op, a[l], b[l]);
    }
    assert a[..] == Front(op, a0, b0, at + lanes) by {
      forall l | 0 <= l < a.Length ensures a[l] == Front(op, a0, b0, at + lanes)[l] {
        assert before[l] == Front(op, a0, b0, at)[l];
      }
    }
    r := a[at..at + lanes];
    assert r == a[..][at..at + lanes];
    HeldGrows(op, a0, b0, at, lanes);
  }

  /** Registers at, at + 1: into the ones, carrying a register of twos. */
  method Pair(op: SetOperation, a: array<bv64>, b: array<bv64>, at: nat, lanes: nat,
              ghost a0: seq<bv64>, ghost b0: seq<bv64>, ones: Register) returns (twos: Register, ones': Register)
    requires At(op, a, b, a0, b0, at) && at + 2 * lanes <= a.Length && |ones| == lanes
    modifies a
    ensures At(op, a, b, a0, b0, at + 2 * lanes) && |twos| == |ones'| == lanes
    ensures 2 * Count(twos) + Count(ones') == Count(ones) + Held(op, a0, b0, at + 2 * lanes) - Held(op, a0, b0, at)
  {
    hide Bits, Range, ApplyWord, Count, At, Held;
    assert a != b && a.Length == |a0| == |b0| by {
      AtMeans(op, a, b, a0, b0, at);
    }
    var first := CombineRegister(op, a, b, at, lanes, a0, b0);
    var second := CombineRegister(op, a, b, at + lanes, lanes, a0, b0);
    CarrySaveAdd(ones, first, second);
    twos, ones' := Highs(ones, first, second), Lows(ones, first, second);
  }

  lemma AtMeans(op: SetOperation, a: array<bv64>, b: array<bv64>, a0: seq<bv64>, b0: seq<bv64>, k: nat)
    requires At(op, a, b, a0, b0, k)
    ensures a != b && k <= a.Length == |a0| == |b0|
  {
  }

  /** Four registers, carrying a register of fours. */
  method Quad(op: SetOperation, a: array<bv64>, b: array<bv64>, at: nat, lanes: nat,
              ghost a0: seq<bv64>, ghost b0: seq<bv64>, ones: Register, twos: Register)
    returns (fours: Register, ones': Register, twos': Register)
    requires At(op, a, b, a0, b0, at) && at + 4 * lanes <= a.Length && |ones| == |twos| == lanes
    modifies a
    ensures At(op, a, b, a0, b0, at + 4 * lanes) && |fours| == |ones'| == |twos'| == lanes
    ensures 4 * Count(fours) + 2 * Count(twos') + Count(ones')
         == 2 * Count(twos) + Count(ones) + Held(op, a0, b0, at + 4 * lanes) - Held(op, a0, b0, at)
  {
    hide Bits, Range, ApplyWord, Count, At, Held;
    AtMeans(op, a, b, a0, b0, at);
    var twosA, twosB;
    twosA, ones' := Pair(op, a, b, at, lanes, a0, b0, ones);
    twosB, ones' := Pair(op, a, b, at + 2 * lanes, lanes, a0, b0, ones');
    CarrySaveAdd(twos, twosA, twosB);
    fours, twos' := Highs(twos, twosA, twosB), Lows(twos, twosA, twosB);
  }

  /** Eight registers, carrying a register of eights. */
  method Octet(op: SetOperation, a: array<bv64>, b: array<bv64>, at: nat, lanes: nat,
               ghost a0: seq<bv64>, ghost b0: seq<bv64>, ones: Register, twos: Register, fours: Register)
    returns (eights: Register, ones': Register, twos': Register, fours': Register)
    requires At(op, a, b, a0, b0, at) && at + 8 * lanes <= a.Length && |ones| == |twos| == |fours| == lanes
    modifies a
    ensures At(op, a, b, a0, b0, at + 8 * lanes) && |eights| == |ones'| == |twos'| == |fours'| == lanes
    ensures 8 * Count(eights) + 4 * Count(fours') + 2 * Count(twos') + Count(ones')
         == 4 * Count(fours) + 2 * Count(twos) + Count(ones) + Held(op, a0, b0, at + 8 * lanes) - Held(op, a0, b0, at)
  {
    hide Bits, Range, ApplyWord, Count, At, Held;
    AtMeans(op, a, b, a0, b0, at);
    var foursA, foursB;
    foursA, ones', twos' := Quad(op, a, b, at, lanes, a0, b0, ones, twos);
    foursB, ones', twos' := Quad(op, a, b, at + 4 * lanes, lanes, a0, b0, ones', twos');
    CarrySaveAdd(fours, foursA, foursB);
    eights, fours' := Highs(fours, foursA, foursB), Lows(fours, foursA, foursB);
  }

  /** Sixteen registers, carrying a register of sixteens. */
  method Block(op: SetOperation, a: array<bv64>, b: array<bv64>, at: nat, lanes: nat,
               ghost a0: seq<bv64>, ghost b0: seq<bv64>, ones: Register, twos: Register, fours: Register, eights: Register)
    returns (sixteens: Register, ones': Register, twos': Register, fours': Register, eights': Register)
    requires At(op, a, b, a0, b0, at) && at + 16 * lanes <= a.Length && |ones| == |twos| == |fours| == |eights| == lanes
    modifies a
    ensures At(op, a, b, a0, b0, at + 16 * lanes)
    ensures |sixteens| == |ones'| == |twos'| == |fours'| == |eights'| == lanes
    ensures 16 * Count(sixteens) + 8 * Count(eights') + 4 * Count(fours') + 2 * Count(twos') + Count(ones')
         == 8 * Count(eights) + 4 * Count(fours) + 2 * Count(twos) + Count(ones)
          + Held(op, a0, b0, at + 16 * lanes) - Held(op, a0, b0, at)
  {
    hide Bits, Range, ApplyWord, Count, At, Held;
    AtMeans(op, a, b, a0, b0, at);
    var eightsA, eightsB;
    eightsA, ones', twos', fours' := Octet(op, a, b, at, lanes, a0, b0, ones, twos, fours);
    eightsB, ones', twos', fours' := Octet(op, a, b, at + 8 * lanes, lanes, a0, b0, ones', twos', fours');
    CarrySaveAdd(eights, eightsA, eightsB);
    sixteens, eights' := Highs(eights, eightsA, eightsB), Lows(eights, eightsA, eightsB);
  }

  /** The first word of register i. */
  function Offset(i: nat, lanes: nat): nat {
    i * lanes
  }

  lemma RegistersFit(regs: nat, i: nat, lanes: nat, n: nat)
    requires lanes > 0 && regs == n / lanes && i <= regs
    ensures Offset(0, lanes) == 0
    ensures Offset(i, lanes) <= n
    ensures i < regs ==> Offset(i + 1, lanes) == Offset(i, lanes) + lanes <= n
    ensures i + 16 <= regs ==> Offset(i + 16, lanes) == Offset(i, lanes) + 16 * lanes <= n
  {
    assert regs * lanes + n % lanes == n;
    assert i * lanes <= regs * lanes;
    assert (i + 1) * lanes == i * lanes + lanes && (i + 16) * lanes == i * lanes + 16 * lanes;
    if i < regs {
      assert (i + 1) * lanes <= regs * lanes;
    }
    if i + 16 <= regs {
      assert (i + 16) * lanes <= regs * lanes;
    }
  }

  /** One round: a block of sixteen registers, whose sixteens are counted. */
  method Round(op: SetOperation, a: array<bv64>, b: array<bv64>, at: nat, lanes: nat, ghost a0: seq<bv64>, ghost b0: seq<bv64>,
               total: seq<nat>, ones: Register, twos: Register, fours: Register, eights: Register)
    returns (total': seq<nat>, ones': Register, twos': Register, fours': Register, eights': Register)
    requires At(op, a, b, a0, b0, at) && at + 16 * lanes <= a.Length
    requires |total| == |ones| == |twos| == |fours| == |eights| == lanes
    requires 16 * Sum(total) + 8 * Count(eights) + 4 * Count(fours) + 2 * Count(twos) + Count(ones) == Held(op, a0, b0, at)
    modifies a
    ensures At(op, a, b, a0, b0, at + 16 * lanes)
    ensures |total'| == |ones'| == |twos'| == |fours'| == |eights'| == lanes && LanesWithin(total', 4 * a.Length)
    ensures 16 * Sum(total') + 8 * Count(eights') + 4 * Count(fours') + 2 * Count(twos') + Count(ones')
         == Held(op, a0, b0, at + 16 * lanes)
  {
    hide Bits, Range, ApplyWord, Count, Combined, Held, PopCount, Sum, At, LanesWithin;
    AtMeans(op, a, b, a0, b0, at);
    HeldIsBounded(op, a0, b0, at + 16 * lanes);
    var sixteens;
    sixteens, ones', twos', fours', eights' := Block(op, a, b, at, lanes, a0, b0, ones, twos, fours, eights);
    total' := AddLanes(total, sixteens, 1, 4 * a.Length);
  }

  /** The rounds of sixteen registers. */
  method Rounds(op: SetOperation, a: array<bv64>, b: array<bv64>, lanes: nat, regs: nat, ghost a0: seq<bv64>, ghost b0: seq<bv64>)
    returns (i: nat, total: seq<nat>, ones: Register, twos: Register, fours: Register, eights: Register)
    requires lanes > 0 && regs == a.Length / lanes && At(op, a, b, a0, b0, 0)
    modifies a
    ensures i <= regs < i + 16 && Offset(i, lanes) <= a.Length
    ensures At(op, a, b, a0, b0, Offset(i, lanes))
    ensures |total| == |ones| == |twos| == |fours| == |eights| == lanes
    ensures 16 * Sum(total) + 8 * Count(eights) + 4 * Count(fours) + 2 * Count(twos) + Count(ones)
         == Held(op, a0, b0, Offset(i, lanes))
    ensures LanesWithin(total, 4 * a.Length)
  {
    hide Bits, Range, ApplyWord, Count, Combined, Held, PopCount, Highs, Lows, AddPopCounts, Scaled, Sum, Zeros, At, Offset, LanesWithin;
    AtMeans(op, a, b, a0, b0, 0);
    total := seq(lanes, _ => 0);
    ones, twos, fours, eights := Zeros(lanes), Zeros(lanes), Zeros(lanes), Zeros(lanes);
    CountOfZeros(lanes);
    HeldNothing(op, a0, b0);
    LanesWithinSum(total, 4 * a.Length);
    RegistersFit(regs, 0, lanes, a.Length);
    var limit := regs - regs % 16;
    i := 0;
    while i < limit
      invariant i <= limit && i % 16 == 0 && Offset(i, lanes) <= a.Length
      invariant At(op, a, b, a0, b0, Offset(i, lanes))
      invariant |total| == |ones| == |twos| == |fours| == |eights| == lanes
      invariant 16 * Sum(total) + 8 * Count(eights) + 4 * Count(fours) + 2 * Count(twos) + Count(ones)
             == Held(op, a0, b0, Offset(i, lanes))
      invariant LanesWithin(total, 4 * a.Length)
    {
      RegistersFit(regs, i, lanes, a.Length);
      total, ones, twos, fours, eights := Round(op, a, b, Offset(i, lanes), lanes, a0, b0, total, ones, twos, fours, eights);
      i := i + 16;
    }
  }

  /** The registers left over, counted one by one. */
  method LeftoverRegisters(op: SetOperation, a: array<bv64>, b: array<bv64>, lanes: nat, regs: nat, first: nat,
                           total: seq<nat>, ghost a0: seq<bv64>, ghost b0: seq<bv64>) returns (cardinality: nat)
    requires lanes > 0 && regs == a.Length / lanes && first <= regs && Offset(first, lanes) <= a.Length
    requires At(op, a, b, a0, b0, Offset(first, lanes))
    requires |total| == lanes && Sum(total) == Held(op, a0, b0, Offset(first, lanes)) && LanesWithin(total, 64 * a.Length)
    modifies a
    ensures Offset(regs, lanes) <= a.Length && At(op, a, b, a0, b0, Offset(regs, lanes))
    ensures cardinality == Held(op, a0, b0, Offset(regs, lanes)) <= 64 * a.Length
  {
    hide Bits, Range, ApplyWord, Count, Combined, Held, PopCount, AddPopCounts, Sum, At, Offset, LanesWithin;
    AtMeans(op, a, b, a0, b0, Offset(first, lanes));
    var i, sums := first, total;
    while i < regs
      invariant i <= regs && Offset(i, lanes) <= a.Length
      invariant At(op, a, b, a0, b0, Offset(i, lanes))
      invariant |sums| == lanes && Sum(sums) == Held(op, a0, b0, Offset(i, lanes)) && LanesWithin(sums, 64 * a.Length)
    {
      RegistersFit(regs, i, lanes, a.Length);
      var r := CombineRegister(op, a, b, Offset(i, lanes), lanes, a0, b0);
      i := i + 1;
      HeldIsBounded(op, a0, b0, Offset(i, lanes));
      sums := AddLanes(sums, r, 1, 64 * a.Length);
    }
    HeldIsBounded(op, a0, b0, Offset(regs, lanes));
    cardinality := Sum(sums);
  }

  /** fused_combine_inplace_popcount, for any word count and register width: the block holds the
      combination and the result is its exact cardinality, as the plain loop leaves it. */
  method FusedCombineAndCount(op: SetOperation, a: array<bv64>, b: array<bv64>, lanes: nat) returns (cardinality: nat)
    requires a != b && a.Length == b.Length && lanes > 0
    modifies a
    ensures a[..] == Combined(op, old(a[..]), old(b[..]))
    ensures cardinality == Count(a[..])
  {
    hide Bits, Range, ApplyWord, Count, Combined, Held, PopCount, Sum, Offset;
    ghost var a0, b0 := a[..], b[..];
    var n, regs := a.Length, a.Length / lanes;
    FrontEnds(op, a0, b0);
    var i, total, ones, twos, fours, eights := Rounds(op, a, b, lanes, regs, a0, b0);
    HeldIsBounded(op, a0, b0, Offset(i, lanes));
    total := Drain(total, ones, twos, fours, eights, 64 * a.Length);
    cardinality := LeftoverRegisters(op, a, b, lanes, regs, i, total, a0, b0);
    var w := Offset(regs, lanes);
    while w < n
      invariant w <= n && At(op, a, b, a0, b0, w) && cardinality == Held(op, a0, b0, w)
    {
      hide At;
      var r := CombineRegister(op, a, b, w, 1, a0, b0);
      CountOfSingle(r);
      cardinality := cardinality + PopCount(r[0]);
      w := w + 1;
    }
    HeldAll(op, a0, b0);
  }

  /** The weighted counters emptied into the lane totals, which stay within any limit on the bits counted. */
  method Drain(total: seq<nat>, ones: Register, twos: Register, fours: Register, eights: Register, ghost limit: nat) returns (drained: seq<nat>)
    requires |total| == |ones| == |twos| == |fours| == |eights|
    requires 16 * Sum(total) + 8 * Count(eights) + 4 * Count(fours) + 2 * Count(twos) + Count(ones) <= limit
    ensures |drained| == |total| && LanesWithin(drained, limit)
    ensures Sum(drained) == 16 * Sum(total) + 8 * Count(eights) + 4 * Count(fours) + 2 * Count(twos) + Count(ones)
  {
    hide Bits, Range, Count, Sum, PopCount, LanesWithin;
    SumOfScaled(total, 16);
    drained := Scaled(total, 16);
    LanesWithinSum(drained, limit);
    drained := AddLanes(drained, eights, 8, limit);
    drained := AddLanes(drained, fours, 4, limit);
    drained := AddLanes(drained, twos, 2, limit);
    drained := AddLanes(drained, ones, 1, limit);
  }

  /** No prefix of the block has more bits than the block has room for. */
  lemma HeldIsBounded(op: SetOperation, a: seq<bv64>, b: seq<bv64>, k: nat)
    requires |a| == |b| && k <= |a|
    ensures Held(op, a, b, k) <= 64 * |a|
  {
    hide Bits, Range, Count, ApplyWord;
  }

  lemma CountOfSingle(r: Register)
    requires |r| == 1
    ensures Count(r) == PopCount(r[0])
  {
    hide Bits, Range, PopCount;
    assert r[..0] == [];
  }

  lemma HeldNothing(op: SetOperation, a: seq<bv64>, b: seq<bv64>)
    requires |a| == |b|
    ensures Held(op, a, b, 0) == 0
  {
  }

  lemma HeldAll(op: SetOperation, a: seq<bv64>, b: seq<bv64>)
    requires |a| == |b|
    ensures Held(op, a, b, |a|) == Count(Combined(op, a, b))
    ensures Front(op, a, b, |a|) == Combined(op, a, b)
  {
    hide Bits, Range, ApplyWord, Count;
    FrontEnds(op, a, b);
    var f := Front(op, a, b, |a|);
    assert f[..|a|] == f;
  }

  /** The fused arm of combine_bitset_bitset_inplace takes the header step the plain arm takes. */
  method CombineFused(lhs: Bitset, op: SetOperation, rhs: array<bv64>, lanes: nat)
    requires lhs.Valid() && rhs.Length == lhs.words.Length && rhs != lhs.words && lanes > 0
    modifies lhs, lhs.words
    ensures lhs.View() == Step(old(lhs.View()), Change.Combine(op, old(Members(rhs[..]))), lhs.Domain())
    ensures lhs.Valid()
    ensures if op.BitOr? && old(lhs.stored) == lhs.Domain() then lhs.View() == old(lhs.View()) else IsExact(lhs.View())
  {
    hide Bits, Range, Has, Members, WordOf, BitOf, Combined, ApplySet;
    ghost var h0, a0, b0 := lhs.View(), lhs.words[..], rhs[..];
    CombineIsSound(h0, op, Members(b0), lhs.Domain());
    if op.BitOr? && lhs.stored == lhs.words.Length * 64 {
      return;
    }
    lhs.stored := FusedCombineAndCount(op, lhs.words, rhs, lanes);
    lhs.stale := false;
    MembersOfCombined(op, a0, b0);
    CountIsCardinality(lhs.words[..]);
  }
}
