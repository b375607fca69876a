/** The benchmark scheduler's rounds, orders and slices: every member runs in every position equally
    often, every order is a permutation, and the slices add up to the reps. */
module Scheduler {
  import opened Word64
  import opened Listing

  datatype RunOrder = Registration | Reversed | Interleaved | Shuffled

  predicate SideBySide(order: RunOrder) {
    order.Interleaved? || order.Shuffled?
  }

  const U32: nat := 0x1_0000_0000
  const U64: nat := 0x1_0000_0000_0000_0000

  // ---- rounds ------------------------------------------------------------------------------------

  /** unit_rounds, in 32-bit arithmetic. */
  function UnitRounds(n: nat, history: bool, order: RunOrder, rounds: nat): nat
    requires 0 < n < U32
  {
    if !SideBySide(order) || history then 1
    else if order.Shuffled? then rounds
    else (rounds + n - 1) % U32 / n * n
  }

  ghost predicate IsRoundedUp(result: nat, rounds: nat, n: nat)
    requires n > 0
  {
    result % n == 0 && rounds <= result < rounds + n
  }

  lemma Multiples(q: nat, n: nat)
    requires n > 0
    ensures q / n * n <= q < q / n * n + n
    ensures (q / n * n) % n == 0
  {
    var k := q / n;
    assert q == k * n + q % n;
    MultipleHasNoRemainder(k, n);
  }

  lemma {:induction false} MultipleHasNoRemainder(k: nat, n: nat)
    requires n > 0
    ensures (k * n) % n == 0
  {
    if k > 0 {
      MultipleHasNoRemainder(k - 1, n);
      RemainderOfNext((k - 1) * n, n);
      assert k * n == (k - 1) * n + n;
    }
  }

  lemma RemainderOfNext(x: nat, n: nat)
    requires n > 0
    ensures (x + n) % n == x % n
  {
    var q := x / n;
    assert x == q * n + x % n;
    assert x + n == (q + 1) * n + x % n;
    QuotientIsUnique(x + n, n, q + 1, x % n);
  }

  lemma ProductsAreApart(a: nat, b: nat, n: nat)
    requires a < b
    ensures a * n + n <= b * n
  {
    var d := b - a - 1;
    assert b * n == a * n + n + d * n;
    assert d * n >= 0;
  }

  lemma QuotientIsPositive(x: nat, n: nat)
    requires 0 < n <= x
    ensures x / n >= 1
  {
    Multiples(x - n, n);
    QuotientIsUnique(x, n, (x - n) / n + 1, x - n - (x - n) / n * n);
  }

  lemma QuotientIsUnique(x: nat, n: nat, q: nat, r: nat)
    requires n > 0 && x == q * n + r && r < n
    ensures x / n == q && x % n == r
  {
    var q', r' := x / n, x % n;
    assert q * n + r == q' * n + r';
    if q < q' {
      ProductsAreApart(q, q', n);
    } else if q' < q {
      ProductsAreApart(q', q, n);
    }
  }

  /** Interleaved rounds are the requested ones rounded up to a multiple of the unit's width, exactly
      as long as the sum does not pass 32 bits. */
  lemma InterleavedRounds(n: nat, rounds: nat)
    requires 0 < n < U32 && 0 < rounds < U32
    ensures IsRoundedUp(UnitRounds(n, false, Interleaved, rounds), rounds, n) <==> rounds + n - 1 < U32
  {
    var sum := rounds + n - 1;
    Multiples(sum % U32, n);
    if sum < U32 {
      assert sum % U32 == sum;
    } else {
      assert sum % U32 == sum - U32;
    }
  }

  // ---- reps and slices ---------------------------------------------------------------------------

  function UnitReps(reps: int, rounds: nat): nat {
    if reps < rounds then rounds else reps
  }

  function SliceReps(reps: nat, rounds: nat, round: nat): nat
    requires rounds > 0
  {
    reps / rounds + if round < reps % rounds then 1 else 0
  }

  function SumOfSlices(reps: nat, rounds: nat, upTo: nat): nat
    requires rounds > 0
  {
    if upTo == 0 then 0 else SumOfSlices(reps, rounds, upTo - 1) + SliceReps(reps, rounds, upTo - 1)
  }

  lemma {:induction false} SlicesSoFar(reps: nat, rounds: nat, upTo: nat)
    requires rounds > 0
    ensures SumOfSlices(reps, rounds, upTo) == upTo * (reps / rounds) + if upTo < reps % rounds then upTo else reps % rounds
  {
    if upTo > 0 {
      SlicesSoFar(reps, rounds, upTo - 1);
      assert upTo * (reps / rounds) == (upTo - 1) * (reps / rounds) + reps / rounds;
    }
  }

  /** A member's slices over its rounds add up to the reps configured for it, or to the rounds when those are
      more. None of them is empty, and they differ by at most one, the larger ones first. */
  lemma SlicesAddUp(reps: int, rounds: nat)
    requires rounds > 0
    ensures reps >= rounds ==> SumOfSlices(UnitReps(reps, rounds), rounds, rounds) == reps
    ensures reps < rounds ==> SumOfSlices(UnitReps(reps, rounds), rounds, rounds) == rounds
    ensures forall round: nat :: round < rounds ==> SliceReps(UnitReps(reps, rounds), rounds, round) >= 1
    ensures forall q: nat, r: nat :: q <= r < rounds ==>
              var earlier, later := SliceReps(UnitReps(reps, rounds), rounds, q), SliceReps(UnitReps(reps, rounds), rounds, r);
              later <= earlier <= later + 1
  {
    var all := UnitReps(reps, rounds);
    SlicesSoFar(all, rounds, rounds);
    assert all == rounds * (all / rounds) + all % rounds;
    QuotientIsPositive(all, rounds);
  }

  // ---- rotation ----------------------------------------------------------------------------------

  /** The member that runs in position i of round r. */
  function Rotated(n: nat, r: nat, i: nat): (m: nat)
    requires n > 0
    ensures m < n
  {
    (r + i) % n
  }

  /** How many of the first `rounds` rounds put member m in position i. */
  function TimesInPosition(n: nat, m: nat, i: nat, rounds: nat): nat
    requires n > 0
  {
    if rounds == 0 then 0
    else TimesInPosition(n, m, i, rounds - 1) + if Rotated(n, rounds - 1, i) == m then 1 else 0
  }

  lemma RotationPeriod(n: nat, m: nat, i: nat, rounds: nat)
    requires n > 0 && n <= rounds
    ensures Rotated(n, rounds, i) == Rotated(n, rounds - n, i)
  {
    RemainderOfNext(rounds - n + i, n);
  }

  /** In any n rounds from `from` on, member m is in position i exactly once. */
  lemma {:induction false} OnceInEveryTurn(n: nat, m: nat, i: nat, from: nat)
    requires m < n
    ensures TimesInPosition(n, m, i, from + n) == TimesInPosition(n, m, i, from) + 1
  {
    if from > 0 {
      OnceInEveryTurn(n, m, i, from - 1);
      RotationPeriod(n, m, i, from - 1 + n);
    } else {
      FirstTurn(n, m, i);
    }
  }

  /** The round of the first turn in which member m is in position i. */
  function RoundOf(n: nat, m: nat, i: nat): (r: nat)
    requires m < n
    ensures r < n
  {
    (m + n - i % n) % n
  }

  lemma RoundOfIsRight(n: nat, m: nat, i: nat, r: nat)
    requires m < n && r < n
    ensures Rotated(n, r, i) == m <==> r == RoundOf(n, m, i)
  {
    var j := i % n;
    assert i == (i / n) * n + j;
    RemainderOfMultiple(r + j, i / n, n);
    assert r + i == r + j + (i / n) * n;
    SmallRemainder(r + j, n);
    SmallRemainder(m + n - j, n);
  }

  lemma {:induction false} RemainderOfMultiple(x: nat, k: nat, n: nat)
    requires n > 0
    ensures (x + k * n) % n == x % n
  {
    if k > 0 {
      RemainderOfMultiple(x, k - 1, n);
      RemainderOfNext(x + (k - 1) * n, n);
      assert x + k * n == x + (k - 1) * n + n;
    }
  }

  lemma SmallRemainder(x: nat, n: nat)
    requires 0 < n && x < 2 * n
    ensures x % n == if x < n then x else x - n
  {
    if x < n {
      QuotientIsUnique(x, n, 0, x);
    } else {
      QuotientIsUnique(x, n, 1, x - n);
    }
  }

  lemma {:induction false} TurnSoFar(n: nat, m: nat, i: nat, upTo: nat)
    requires m < n && upTo <= n
    ensures TimesInPosition(n, m, i, upTo) == if RoundOf(n, m, i) < upTo then 1 else 0
  {
    hide RoundOf, Rotated;
    if upTo > 0 {
      TurnSoFar(n, m, i, upTo - 1);
      RoundOfIsRight(n, m, i, upTo - 1);
    }
  }

  lemma FirstTurn(n: nat, m: nat, i: nat)
    requires m < n
    ensures TimesInPosition(n, m, i, n) == 1 && TimesInPosition(n, m, i, 0) == 0
  {
    TurnSoFar(n, m, i, n);
  }

  /** Under interleaving every member takes every position in exactly rounds / n rounds. */
  lemma {:induction false} PositionsAreBalanced(n: nat, m: nat, i: nat, turns: nat)
    requires m < n
    ensures TimesInPosition(n, m, i, turns * n) == turns
  {
    hide TimesInPosition;
    if turns == 0 {
      FirstTurn(n, m, i);
    } else {
      PositionsAreBalanced(n, m, i, turns - 1);
      OnceInEveryTurn(n, m, i, (turns - 1) * n);
      assert turns * n == (turns - 1) * n + n;
    }
  }

  // ---- draws -------------------------------------------------------------------------------------

  /** ( 0 - bound ) % bound in 64-bit arithmetic. */
  function Threshold(bound: nat): (t: nat)
    requires 0 < bound < U32
    ensures t < bound
  {
    (U64 - bound) % bound
  }

  /** The outputs from `at` on, rejected up to the one before `next`, which is accepted and reduced. */
  ghost predicate OneDraw(outputs: seq<nat>, at: nat, next: nat, bound: nat, value: nat)
    requires 0 < bound < U32
  {
    && at < next <= |outputs|
    && (forall j :: at <= j < next - 1 ==> outputs[j] < Threshold(bound))
    && outputs[next - 1] >= Threshold(bound) && value == outputs[next - 1] % bound
  }

  /** draw_below over the outputs of the generator: the first accepted output, reduced; or every output
      was rejected. */
  method DrawBelow(outputs: seq<nat>, at: nat, bound: nat) returns (drawn: bool, value: nat, next: nat)
    requires at <= |outputs| && 0 < bound < U32
    ensures at <= next <= |outputs|
    ensures drawn ==> value < bound && OneDraw(outputs, at, next, bound, value)
    ensures !drawn ==> next == |outputs| && forall j :: at <= j < |outputs| ==> outputs[j] < Threshold(bound)
  {
    var threshold := Threshold(bound);
    next := at;
    while next < |outputs|
      invariant at <= next <= |outputs|
      invariant forall j :: at <= j < next ==> outputs[j] < threshold
    {
      var x := outputs[next];
      next := next + 1;
      if x >= threshold {
        return true, x % bound, next;
      }
    }
    return false, 0, next;
  }

  /** How many outputs of [lo, hi) reduce to r. */
  ghost function Preimages(lo: nat, hi: nat, bound: nat, r: nat): nat
    requires lo <= hi && bound > 0
    decreases hi
  {
    if lo == hi then 0 else Preimages(lo, hi - 1, bound, r) + if (hi - 1) % bound == r then 1 else 0
  }

  lemma {:induction false} PreimagesSplit(lo: nat, mid: nat, hi: nat, bound: nat, r: nat)
    requires lo <= mid <= hi && bound > 0
    ensures Preimages(lo, hi, bound, r) == Preimages(lo, mid, bound, r) + Preimages(mid, hi, bound, r)
    decreases hi
  {
    if mid < hi {
      PreimagesSplit(lo, mid, hi - 1, bound, r);
    }
  }

  lemma {:induction false} FirstWindow(bound: nat, r: nat, upTo: nat)
    requires r < bound && upTo <= bound
    ensures Preimages(0, upTo, bound, r) == if r < upTo then 1 else 0
  {
    if upTo > 0 {
      FirstWindow(bound, r, upTo - 1);
      SmallRemainder(upTo - 1, bound);
    }
  }

  /** Any `bound` consecutive outputs hold each residue once. */
  lemma {:induction false} Window(lo: nat, bound: nat, r: nat)
    requires r < bound
    ensures Preimages(lo, lo + bound, bound, r) == 1
  {
    if lo == 0 {
      FirstWindow(bound, r, bound);
    } else {
      Window(lo - 1, bound, r);
      PreimagesSplit(lo - 1, lo, lo - 1 + bound, bound, r);
      PreimagesSplit(lo, lo - 1 + bound, lo + bound, bound, r);
      RemainderOfNext(lo - 1, bound);
      assert Preimages(lo - 1, lo, bound, r) == if (lo - 1) % bound == r then 1 else 0;
      assert Preimages(lo - 1 + bound, lo + bound, bound, r) == if (lo - 1 + bound) % bound == r then 1 else 0;
    }
  }

  lemma {:induction false} Windows(lo: nat, k: nat, bound: nat, r: nat)
    requires r < bound
    ensures Preimages(lo, lo + k * bound, bound, r) == k
  {
    if k > 0 {
      Windows(lo, k - 1, bound, r);
      assert k * bound == (k - 1) * bound + bound;
      PreimagesSplit(lo, lo + (k - 1) * bound, lo + k * bound, bound, r);
      Window(lo + (k - 1) * bound, bound, r);
    }
  }

  /** The accepted outputs are a multiple of the bound, and every residue has equally many of them. */
  lemma DrawsAreUnbiased(bound: nat, r: nat)
    requires 0 < bound < U32 && r < bound
    ensures (U64 - Threshold(bound)) % bound == 0
    ensures Preimages(Threshold(bound), U64, bound, r) == (U64 - Threshold(bound)) / bound
  {
    var t := Threshold(bound);
    var q := (U64 - bound) / bound;
    assert U64 - bound == q * bound + t;
    assert U64 - t == (q + 1) * bound;
    Windows(t, q + 1, bound, r);
    QuotientIsUnique(U64 - t, bound, q + 1, 0);
  }

  // ---- member orders -----------------------------------------------------------------------------

  /** Every member runs exactly once. */
  ghost predicate IsPermutation(row: seq<nat>) {
    && (forall i :: 0 <= i < |row| ==> row[i] < |row|)
    && (forall i, j :: 0 <= i < j < |row| ==> row[i] != row[j])
  }

  /** A permutation leaves nobody out. */
  lemma EveryMemberRuns(row: seq<nat>, m: nat)
    requires IsPermutation(row) && m < |row|
    ensures m in row
  {
    hide Range;
    DistinctCount(row);
    ValuesAreBelow(row, |row|);
    SubsetIsNoLarger(ValuesOf(row), Range(0, |row|));
    assert m in Range(0, |row|);
  }

  lemma {:induction false} DistinctCount(row: seq<nat>)
    requires forall i, j :: 0 <= i < j < |row| ==> row[i] != row[j]
    ensures |ValuesOf(row)| == |row|
  {
    if row != [] {
      var n := |row| - 1;
      DistinctCount(row[..n]);
      ValuesOfNext(row, n);
      assert row[..n + 1] == row;
      assert row[n] !in ValuesOf(row[..n]);
    }
  }

  // ---- shuffles ----------------------------------------------------------------------------------

  function Swapped(row: seq<nat>, i: nat, j: nat): (r: seq<nat>)
    requires i < |row| && j < |row|
    ensures |r| == |row|
  {
    row[i := row[j]][j := row[i]]
  }

  lemma SwapKeepsPermutation(row: seq<nat>, i: nat, j: nat)
    requires IsPermutation(row) && i < |row| && j < |row|
    ensures IsPermutation(Swapped(row, i, j))
  {
  }

  /** The draws of a shuffle of n members: the first below n, the next below n - 1, and so on. */
  predicate AreDraws(draws: seq<nat>, n: nat) {
    |draws| < n && forall j :: 0 <= j < |draws| ==> draws[j] < n - j
  }

  /** The row after a swap for each draw, from the last position down. */
  function Shuffled(row: seq<nat>, draws: seq<nat>): (r: seq<nat>)
    requires AreDraws(draws, |row|)
    ensures |r| == |row|
  {
    if draws == [] then row
    else var last := |draws| - 1; Swapped(Shuffled(row, draws[..last]), |row| - |draws|, draws[last])
  }

  lemma {:induction false} ShuffledIsPermutation(row: seq<nat>, draws: seq<nat>)
    requires AreDraws(draws, |row|) && IsPermutation(row)
    ensures IsPermutation(Shuffled(row, draws))
  {
    hide IsPermutation;
    if draws != [] {
      var last := |draws| - 1;
      ShuffledIsPermutation(row, draws[..last]);
      SwapKeepsPermutation(Shuffled(row, draws[..last]), |row| - |draws|, draws[last]);
    }
  }

  /** Once a position has had its swap it keeps its member: the one its draw picked. */
  lemma {:induction false} SettledPosition(row: seq<nat>, draws: seq<nat>, j: nat)
    requires AreDraws(draws, |row|) && j < |draws|
    ensures Shuffled(row, draws)[|row| - 1 - j] == Shuffled(row, draws[..j])[draws[j]]
  {
    var last := |draws| - 1;
    if j < last {
      SettledPosition(row, draws[..last], j);
      assert draws[..last][..j] == draws[..j];
    }
  }

  lemma {:induction false} SameDraws(row: seq<nat>, d: seq<nat>, e: seq<nat>, upTo: nat)
    requires IsPermutation(row) && AreDraws(d, |row|) && AreDraws(e, |row|) && |d| == |e|
    requires Shuffled(row, d) == Shuffled(row, e) && upTo <= |d|
    ensures d[..upTo] == e[..upTo]
  {
    if upTo > 0 {
      var j := upTo - 1;
      SameDraws(row, d, e, j);
      SettledPosition(row, d, j);
      SettledPosition(row, e, j);
      ShuffledIsPermutation(row, d[..j]);
      hide Shuffled;
      assert d[j] == e[j];
      assert d[..upTo] == d[..j] + [d[j]] && e[..upTo] == e[..j] + [e[j]];
    }
  }

  /** The member wanted at position i is still in front of the settled positions. */
  lemma NextDraw(now: seq<nat>, target: seq<nat>, i: nat) returns (d: nat)
    requires IsPermutation(now) && IsPermutation(target) && i < |now| == |target|
    requires forall j :: i < j < |now| ==> now[j] == target[j]
    ensures d <= i && now[d] == target[i]
  {
    EveryMemberRuns(now, target[i]);
    d :| 0 <= d < |now| && now[d] == target[i];
  }

  /** The first `upTo` draws that lead from row to target. */
  lemma {:induction false} DrawsTowards(row: seq<nat>, target: seq<nat>, upTo: nat) returns (draws: seq<nat>)
    requires IsPermutation(row) && IsPermutation(target) && |row| == |target| && upTo < |row|
    ensures |draws| == upTo && AreDraws(draws, |row|)
    ensures forall i :: |row| - upTo <= i < |row| ==> Shuffled(row, draws)[i] == target[i]
  {
    if upTo == 0 {
      draws := [];
    } else {
      var before := DrawsTowards(row, target, upTo - 1);
      var now, i := Shuffled(row, before), |row| - upTo;
      ShuffledIsPermutation(row, before);
      var d := NextDraw(now, target, i);
      hide IsPermutation;
      draws := before + [d];
      assert draws[..upTo - 1] == before;
    }
  }

  /** Two orders of the same members that agree everywhere but in front are the same. */
  lemma LastMemberIsForced(a: seq<nat>, b: seq<nat>)
    requires IsPermutation(a) && IsPermutation(b) && |a| == |b| > 0 && forall i :: 1 <= i < |a| ==> a[i] == b[i]
    ensures a == b
  {
    EveryMemberRuns(a, b[0]);
  }

  /** The shuffle is fair: every order of the members comes from exactly one list of draws. */
  lemma EveryOrderComesFromOneListOfDraws(row: seq<nat>, target: seq<nat>)
    requires IsPermutation(row) && IsPermutation(target) && |row| == |target| > 0
    ensures exists draws :: |draws| == |row| - 1 && AreDraws(draws, |row|) && Shuffled(row, draws) == target
    ensures forall d, e | |d| == |e| == |row| - 1 && AreDraws(d, |row|) && AreDraws(e, |row|) ::
              Shuffled(row, d) == target && Shuffled(row, e) == target ==> d == e
  {
    var draws := DrawsTowards(row, target, |row| - 1);
    ShuffledIsPermutation(row, draws);
    LastMemberIsForced(Shuffled(row, draws), target);
    forall d, e | |d| == |e| == |row| - 1 && AreDraws(d, |row|) && AreDraws(e, |row|)
               && Shuffled(row, d) == target && Shuffled(row, e) == target ensures d == e {
      SameDraws(row, d, e, |d|);
      assert d[..|d|] == d && e[..|e|] == e;
    }
  }

  /** The draws are the accepted outputs of [at, next), each reduced to its bound. */
  ghost predicate TakenFrom(outputs: seq<nat>, at: nat, next: nat, draws: seq<nat>, n: nat)
    requires n < U32 && AreDraws(draws, n)
    decreases |draws|
  {
    if draws == [] then next == at
    else
      var last := |draws| - 1;
      exists mid: nat :: TakenFrom(outputs, at, mid, draws[..last], n) && OneDraw(outputs, mid, next, n - last, draws[last])
  }

  /** std::swap of two members. */
  method Swap(row: array<nat>, i: nat, j: nat)
    requires i < row.Length && j < row.Length
    modifies row
    ensures row[..] == Swapped(old(row[..]), i, j)
  {
    row[i], row[j] := row[j], row[i];
  }

  lemma OneMoreDraw(row: seq<nat>, draws: seq<nat>, d: nat, outputs: seq<nat>, at: nat, mid: nat, next: nat)
    requires AreDraws(draws, |row|) && AreDraws(draws + [d], |row|) && |row| < U32
    requires TakenFrom(outputs, at, mid, draws, |row|) && OneDraw(outputs, mid, next, |row| - |draws|, d)
    ensures Shuffled(row, draws + [d]) == Swapped(Shuffled(row, draws), |row| - |draws| - 1, d)
    ensures TakenFrom(outputs, at, next, draws + [d], |row|)
  {
    hide OneDraw;
    assert (draws + [d])[..|draws|] == draws;
  }

  /** The Fisher-Yates swaps: one draw for every position but the first. */
  method Shuffle(row: array<nat>, outputs: seq<nat>, at: nat) returns (ok: bool, next: nat, ghost draws: seq<nat>)
    requires 0 < row.Length < U32 && at <= |outputs|
    modifies row
    ensures at <= next <= |outputs|
    ensures AreDraws(draws, row.Length) && row[..] == Shuffled(old(row[..]), draws)
    ensures ok ==> |draws| == row.Length - 1 && TakenFrom(outputs, at, next, draws, row.Length)
    ensures !ok ==> next == |outputs|
  {
    hide OneDraw, Shuffled, TakenFrom, Swapped;
    ok, next, draws := true, at, [];
    ghost var n, row0 := row.Length, row[..];
    ShuffleStarts(row0, outputs, at);
    var i := row.Length;
    while i > 1
      invariant 1 <= i <= n && at <= next <= |outputs| && |draws| == n - i
      invariant AreDraws(draws, n) && row[..] == Shuffled(row0, draws) && TakenFrom(outputs, at, next, draws, n)
    {
      var drawn, value;
      ghost var mid := next;
      drawn, value, next := DrawBelow(outputs, next, i);
      if !drawn {
        return false, next, draws;
      }
      OneMoreDraw(row0, draws, value, outputs, at, mid, next);
      Swap(row, i - 1, value);
      draws := draws + [value];
      i := i - 1;
    }
  }

  lemma ShuffleStarts(row: seq<nat>, outputs: seq<nat>, at: nat)
    requires 0 < |row| < U32
    ensures Shuffled(row, []) == row && TakenFrom(outputs, at, at, [], |row|)
  {
  }

  // ---- rows --------------------------------------------------------------------------------------

  /** The members in order. */
  function InOrder(n: nat): (row: seq<nat>)
    ensures |row| == n && forall i :: 0 <= i < n ==> row[i] == i
  {
    seq(n, i => i)
  }

  /** Round r of a rotation starts with member r and goes round from each member to its successor. */
  ghost predicate IsRotation(row: seq<nat>, n: nat, r: nat) {
    && |row| == n > 0 && row[0] == r % n
    && forall i :: 0 < i < n ==> row[i] == if row[i - 1] == n - 1 then 0 else row[i - 1] + 1
  }

  lemma FirstRowMeans(n: nat, r: nat, order: RunOrder)
    requires n > 0
    ensures if order.Interleaved? then IsRotation(FirstRow(n, r, order), n, r) else FirstRow(n, r, order) == InOrder(n)
  {
    var row := FirstRow(n, r, order);
    if order.Interleaved? {
      forall i | 0 < i < n ensures row[i] == if row[i - 1] == n - 1 then 0 else row[i - 1] + 1 {
        NextRotated(n, r, i - 1);
      }
    }
  }

  lemma NextRotated(n: nat, r: nat, i: nat)
    requires n > 0
    ensures Rotated(n, r, i + 1) == if Rotated(n, r, i) == n - 1 then 0 else Rotated(n, r, i) + 1
  {
    var x := r + i;
    var q := x / n;
    assert x == q * n + x % n;
    if x % n == n - 1 {
      assert x + 1 == (q + 1) * n;
      QuotientIsUnique(x + 1, n, q + 1, 0);
    } else {
      QuotientIsUnique(x + 1, n, q, x % n + 1);
    }
  }

  /** The row of round r before any shuffle: the members rotated by r, or in order. */
  function FirstRow(n: nat, r: nat, order: RunOrder): (row: seq<nat>)
    ensures |row| == n
  {
    seq(n, i requires 0 <= i < n => if order.Interleaved? then Rotated(n, r, i) else i)
  }

  lemma FirstRowIsPermutation(n: nat, r: nat, order: RunOrder)
    ensures IsPermutation(FirstRow(n, r, order))
  {
    hide Rotated;
    var row := FirstRow(n, r, order);
    if order.Interleaved? {
      forall i, j | 0 <= i < j < n ensures row[i] != row[j] {
        RotationIsInjective(n, r, i, j);
      }
    }
  }

  /** One round's row of make_orders: filled in order or rotated, then shuffled in place by the draws
      taken from the generator. It fails only when the given outputs run out. */
  method MakeRow(row: array<nat>, r: nat, order: RunOrder, outputs: seq<nat>, at: nat) returns (ok: bool, next: nat, ghost draws: seq<nat>)
    requires 0 < row.Length < U32 && at <= |outputs|
    modifies row
    ensures at <= next <= |outputs|
    ensures AreDraws(draws, row.Length) && row[..] == Shuffled(FirstRow(row.Length, r, order), draws)
    ensures ok ==> |draws| == (if order.Shuffled? then row.Length - 1 else 0) && TakenFrom(outputs, at, next, draws, row.Length)
    ensures order.Interleaved? ==> IsRotation(row[..], row.Length, r)
    ensures order.Registration? || order.Reversed? ==> row[..] == InOrder(row.Length)
    ensures order.Shuffled? ==> row[..] == Shuffled(InOrder(row.Length), draws)
    ensures !ok ==> order.Shuffled? && next == |outputs|
  {
    FirstRowMeans(row.Length, r, order);
    hide Rotated, Shuffled, TakenFrom, IsRotation;
    var n := row.Length;
    next, ok, draws := at, true, [];
    for i := 0 to n
      invariant forall j :: 0 <= j < i ==> row[j] == if order.Interleaved? then Rotated(n, r, j) else j
    {
      row[i] := if order.Interleaved? then Rotated(n, r, i) else i;
    }
    assert row[..] == FirstRow(n, r, order);
    ShuffleStarts(row[..], outputs, at);
    if order.Shuffled? {
      ok, next, draws := Shuffle(row, outputs, at);
    }
  }

  lemma RotationIsInjective(n: nat, r: nat, i: nat, j: nat)
    requires i < j < n
    ensures Rotated(n, r, i) != Rotated(n, r, j)
  {
    var s := r % n;
    assert r == (r / n) * n + s;
    RemainderOfMultiple(s + i, r / n, n);
    RemainderOfMultiple(s + j, r / n, n);
    assert r + i == s + i + (r / n) * n && r + j == s + j + (r / n) * n;
    SmallRemainder(s + i, n);
    SmallRemainder(s + j, n);
  }

  /** Round r's order is its first row after the draws the generator gave it, in turn. */
  ghost predicate Ordered(row: seq<nat>, n: nat, r: nat, order: RunOrder, outputs: seq<nat>, at: nat, next: nat)
    requires n < U32
  {
    exists draws :: AreDraws(draws, n) && |draws| == (if order.Shuffled? then n - 1 else 0) && TakenFrom(outputs, at, next, draws, n)
                 && row == Shuffled(FirstRow(n, r, order), draws)
  }

  /** Every order is a permutation; without a shuffle it is the members in order or rotated. */
  lemma OrderedMeans(row: seq<nat>, n: nat, r: nat, order: RunOrder, outputs: seq<nat>, at: nat, next: nat)
    requires 0 < n < U32 && Ordered(row, n, r, order, outputs, at, next)
    ensures |row| == n && IsPermutation(row)
    ensures !order.Shuffled? ==> row == FirstRow(n, r, order) && next == at
  {
    hide IsPermutation, FirstRow;
    FirstRowIsPermutation(n, r, order);
    var draws :| AreDraws(draws, n) && |draws| == (if order.Shuffled? then n - 1 else 0) && TakenFrom(outputs, at, next, draws, n)
              && row == Shuffled(FirstRow(n, r, order), draws);
    ShuffledIsPermutation(FirstRow(n, r, order), draws);
  }

  /** make_orders: one row a round, each a permutation of the members, drawn from where the round before
      stopped drawing; interleaved rows are rotations. */
  method MakeOrders(n: nat, rounds: nat, order: RunOrder, outputs: seq<nat>) returns (ok: bool, orders: seq<seq<nat>>, ghost starts: seq<nat>)
    requires 0 < n < U32
    ensures ok ==> |orders| == rounds
    ensures !ok ==> order.Shuffled?
    ensures |starts| == |orders| + 1 && starts[0] == 0
    ensures forall r :: 0 <= r < |orders| ==> Ordered(orders[r], n, r, order, outputs, starts[r], starts[r + 1])
    ensures forall r :: 0 <= r < |orders| ==> |orders[r]| == n && IsPermutation(orders[r])
    ensures !order.Shuffled? ==> forall r :: 0 <= r < rounds ==> orders[r] == FirstRow(n, r, order)
  {
    hide IsPermutation, FirstRow, Shuffled, TakenFrom, AreDraws;
    ok, orders, starts := true, [], [0];
    var next := 0;
    for r := 0 to rounds
      invariant |orders| == r && next <= |outputs|
      invariant |starts| == r + 1 && starts[0] == 0 && starts[r] == next
      invariant forall q :: 0 <= q < r ==> Ordered(orders[q], n, q, order, outputs, starts[q], starts[q + 1])
      invariant forall q :: 0 <= q < r ==> |orders[q]| == n && IsPermutation(orders[q])
      invariant !order.Shuffled? ==> forall q :: 0 <= q < r ==> orders[q] == FirstRow(n, q, order)
    {
      var row := new nat[n];
      var made;
      ghost var draws, at := [], next;
      made, next, draws := MakeRow(row, r, order, outputs, next);
      if !made {
        return false, orders, starts;
      }
      assert Ordered(row[..], n, r, order, outputs, at, next);
      OrderedMeans(row[..], n, r, order, outputs, at, next);
      orders, starts := orders + [row[..]], starts + [next];
    }
  }

  /** How many of the given orders put member m in position i. */
  function TimesAt(orders: seq<seq<nat>>, m: nat, i: nat): nat {
    if orders == [] then 0
    else
      var last := orders[|orders| - 1];
      TimesAt(orders[..|orders| - 1], m, i) + if i < |last| && last[i] == m then 1 else 0
  }

  lemma {:induction false} RotationsAreCounted(n: nat, orders: seq<seq<nat>>, m: nat, i: nat)
    requires i < n && forall r :: 0 <= r < |orders| ==> orders[r] == FirstRow(n, r, Interleaved)
    ensures TimesAt(orders, m, i) == TimesInPosition(n, m, i, |orders|)
  {
    hide Rotated;
    if orders != [] {
      RotationsAreCounted(n, orders[..|orders| - 1], m, i);
    }
  }

  /** What a unit of several members runs: its orders over the rounds it is given. Registration and reversed
      order, and a history entry, get one round, a shuffled unit the rounds asked for, an interleaved one the next
      multiple of its width. Under interleaving every member takes every position in exactly one n-th of the rounds;
      whatever the order, each round runs every member once. */
  method UnitOrders(n: nat, history: bool, order: RunOrder, rounds: nat, outputs: seq<nat>) returns (ok: bool, orders: seq<seq<nat>>)
    requires 0 < n < U32
    ensures ok ==> |orders| == UnitRounds(n, history, order, rounds)
    ensures ok && (history || order.Registration? || order.Reversed?) ==> |orders| == 1
    ensures ok && order.Shuffled? && !history ==> |orders| == rounds
    ensures order.Interleaved? && !history && 0 < rounds && rounds + n - 1 < U32 ==> rounds <= |orders| < rounds + n
    ensures !ok ==> order.Shuffled?
    ensures order.Registration? || order.Reversed? ==> forall r :: 0 <= r < |orders| ==> orders[r] == InOrder(n)
    ensures order.Interleaved? ==> forall r :: 0 <= r < |orders| ==> IsRotation(orders[r], n, r)
    ensures order.Shuffled? ==> forall r :: 0 <= r < |orders| ==>
              exists draws :: AreDraws(draws, n) && |draws| == n - 1 && orders[r] == Shuffled(InOrder(n), draws)
    ensures forall r :: 0 <= r < |orders| ==> |orders[r]| == n && IsPermutation(orders[r])
    ensures order.Interleaved? && !history ==> forall m, i :: 0 <= m < n && 0 <= i < n ==> TimesAt(orders, m, i) * n == |orders|
  {
    hide IsPermutation, FirstRow, Ordered, IsRotation, TimesAt, UnitRounds, Shuffled, AreDraws;
    ghost var starts;
    RoundsOfUnit(n, history, order, rounds);
    ok, orders, starts := MakeOrders(n, UnitRounds(n, history, order, rounds), order, outputs);
    forall r | 0 <= r < |orders|
      ensures order.Interleaved? ==> IsRotation(orders[r], n, r)
      ensures order.Registration? || order.Reversed? ==> orders[r] == InOrder(n)
      ensures order.Shuffled? ==> exists draws :: AreDraws(draws, n) && |draws| == n - 1 && orders[r] == Shuffled(InOrder(n), draws) {
      FirstRowMeans(n, r, order);
      if order.Shuffled? {
        DrawsOfOrder(orders[r], n, r, outputs, starts[r], starts[r + 1]);
      }
    }
    if order.Interleaved? && !history {
      ghost var turns := (rounds + n - 1) % U32 / n;
      forall m, i | 0 <= m < n && 0 <= i < n ensures TimesAt(orders, m, i) * n == |orders| {
        RotationsAreCounted(n, orders, m, i);
        PositionsAreBalanced(n, m, i, turns);
      }
    }
  }

  lemma RoundsOfUnit(n: nat, history: bool, order: RunOrder, rounds: nat)
    requires 0 < n < U32
    ensures history || order.Registration? || order.Reversed? ==> UnitRounds(n, history, order, rounds) == 1
    ensures order.Shuffled? && !history ==> UnitRounds(n, history, order, rounds) == rounds
    ensures order.Interleaved? && !history ==> UnitRounds(n, history, order, rounds) == (rounds + n - 1) % U32 / n * n
    ensures order.Interleaved? && !history && 0 < rounds && rounds + n - 1 < U32
        ==> rounds <= UnitRounds(n, history, order, rounds) < rounds + n
  {
    if order.Interleaved? && !history && 0 < rounds && rounds + n - 1 < U32 {
      InterleavedRounds(n, rounds);
    }
  }

  lemma DrawsOfOrder(row: seq<nat>, n: nat, r: nat, outputs: seq<nat>, at: nat, next: nat)
    requires 0 < n < U32 && Ordered(row, n, r, RunOrder.Shuffled, outputs, at, next)
    ensures exists draws :: AreDraws(draws, n) && |draws| == n - 1 && row == Shuffled(InOrder(n), draws)
  {
    FirstRowMeans(n, r, RunOrder.Shuffled);
    hide FirstRow, Shuffled;
    var draws :| AreDraws(draws, n) && |draws| == n - 1 && TakenFrom(outputs, at, next, draws, n)
              && row == Shuffled(FirstRow(n, r, RunOrder.Shuffled), draws);
  }
}
