/** The kernels that build a new bitset: the whole-block combine and the run-and-bitset intersections.
    Each writes into a block that may hold anything (a retired payload) and yields a handle that is
    empty exactly when the result is. */
module ResultKernels {
  import opened Word64
  import opened WordSets
  import opened Runs
  import opened Listing
  import opened BitsetContainer

  /** What a kernel hands back: the empty handle, or a bitset with its exact cardinality. */
  datatype Handle = NoValues | Bitset(cardinality: nat)

  /** combine_bitset_bitset: one fused pass into the result block. */
  method CombineInto(op: SetOperation, a: array<bv64>, b: array<bv64>, out: array<bv64>) returns (h: Handle)
    requires out != a && out != b && a.Length == b.Length == out.Length
    modifies out
    ensures Members(out[..]) == ApplySet(op, Members(a[..]), Members(b[..]))
    ensures h.NoValues? <==> ApplySet(op, Members(a[..]), Members(b[..])) == {}
    ensures h.Bitset? ==> h.cardinality == |ApplySet(op, Members(a[..]), Members(b[..]))|
  {
    hide Bits, Range, Has, Members, WordOf, BitOf, ApplyWord, ApplySet, PopCount, Count;
    var cardinality := 0;
    CountOfNothing();
    for i := 0 to out.Length
      invariant forall j :: 0 <= j < i ==> out[j] == ApplyWord(op, a[j], b[j])
      invariant cardinality == Count(out[..i])
    {
      CountOfFront(out[..], i, ApplyWord(op, a[i], b[i]));
      assert out[..][..i] == out[..i];
      ghost var before := out[..];
      out[i] := ApplyWord(op, a[i], b[i]);
      assert out[..] == before[i := out[i]];
      assert out[..i + 1] == out[..][..i + 1];
      cardinality := cardinality + PopCount(out[i]);
    }
    assert out[..out.Length] == out[..];
    assert out[..] == Combined(op, a[..], b[..]);
    MembersOfCombined(op, a[..], b[..]);
    CountIsCardinality(out[..]);
    h := if cardinality == 0 then NoValues else Handle.Bitset(cardinality);
  }

  /** The values of the block that the runs cover. */
  ghost function Intersection(src: seq<bv64>, runs: seq<Run>): set<nat> {
    Members(src) * CoveredBelow(runs, 64 * |src|)
  }

  /** A word masked to a run's part of it and merged into the result: the frontier moves past the part,
      the count grows by the masked bits, and a part that starts its word may be stored outright. */
  lemma FillStep(v: seq<bv64>, src: seq<bv64>, runs: seq<Run>, r: nat, i: nat, mask: bv64, masked: bv64)
    requires r < |runs| && i < |v| == |src|
    requires runs[r].begin <= runs[r].end && WordOf(runs[r].begin) <= i <= WordOf(runs[r].end)
    requires MasksPart(mask, runs[r], i) && Bits(masked) == Bits(src[i]) * Bits(mask)
    requires Members(v) == Members(src) * CoveredBelow(runs, PartBegin(runs[r], i))
    ensures Members(v[i := Or(v[i], masked)]) == Members(src) * CoveredBelow(runs, PartEnd(runs[r], i))
    ensures Count(v[i := Or(v[i], masked)]) == Count(v) + PopCount(masked)
    ensures PartBegin(runs[r], i) == 64 * i ==> Or(v[i], masked) == masked
  {
    hide Bits, Range, Has, Members, WordOf, BitOf, CoveredBelow, Or, Count;
    var run := runs[r];
    var lo, hi := PartBegin(run, i), PartEnd(run, i);
    MembersOfMerging(v, src, i, mask, masked, Or(v[i], masked), run);
    CoveredStep(runs, r, lo, hi);
    CoveredBelowIsBelow(runs, lo);
    assert Bits(v[i]) !! Bits(masked) by {
      forall k: nat | k in Bits(v[i]) ensures k !in Bits(masked) {
        MemberBit(v, i, k);
        assert 64 * i + k < lo;
      }
    }
    CountOfUpdate(v, i, Or(v[i], masked));
    assert PopCount(Or(v[i], masked)) == PopCount(v[i]) + PopCount(masked);
    if lo == 64 * i {
      forall k: nat ensures k !in Bits(v[i]) {
        if k in Bits(v[i]) {
          MemberBit(v, i, k);
        }
      }
      BitsDetermineWord(Or(v[i], masked), masked);
    }
  }

  // ---- the fill for many short runs --------------------------------------------------------------

  /** fill_run_bitset_words_of_many_runs, into a zeroed block. */
  method FillManyRuns(runs: seq<Run>, src: array<bv64>, out: array<bv64>) returns (cardinality: nat)
    requires out != src && out.Length == src.Length && SortedRuns(runs, 64 * src.Length)
    requires forall i :: 0 <= i < out.Length ==> out[i] == 0
    modifies out
    ensures Members(out[..]) == Intersection(src[..], runs)
    ensures cardinality == Count(out[..])
  {
    hide Bits, Range, Has, Members, WordOf, BitOf, CoveredBelow, Count, SortedRuns;
    cardinality := 0;
    ZeroWordsAreEmpty(out[..]);
    NothingBelowZero(runs);
    for r := 0 to |runs|
      invariant Members(out[..]) == Members(src[..]) * CoveredBelow(runs, Done(runs, r))
      invariant cardinality == Count(out[..])
    {
      GapIsUncovered(runs, r, 64 * src.Length);
      var more := FillShortRun(runs, r, src, out);
      cardinality := cardinality + more;
    }
    GapIsUncovered(runs, |runs|, 64 * src.Length);
  }

  method FillShortRun(runs: seq<Run>, r: nat, src: array<bv64>, out: array<bv64>) returns (more: nat)
    requires out != src && out.Length == src.Length && SortedRuns(runs, 64 * src.Length) && r < |runs|
    requires Members(out[..]) == Members(src[..]) * CoveredBelow(runs, runs[r].begin)
    modifies out
    ensures Members(out[..]) == Members(src[..]) * CoveredBelow(runs, runs[r].end + 1)
    ensures Count(out[..]) == old(Count(out[..])) + more
  {
    hide Bits, Range, Has, Members, WordOf, BitOf, CoveredBelow, Count, FirstMask, LastMask, And, Or, SortedRuns, MasksPart, PopCount;
    RunInside(runs, r, 64 * src.Length);
    ghost var c0 := Count(out[..]);
    var run := runs[r];
    var firstWord, lastWord := WordOf(run.begin), WordOf(run.end);
    var firstMask, lastMask := FirstMask(BitOf(run.begin)), LastMask(BitOf(run.end));
    RunMasks(run);
    if firstWord == lastWord {
      var masked := And(And(src[firstWord], firstMask), lastMask);
      StoreMerged(runs, r, src, out, firstWord, And(firstMask, lastMask), masked);
      return PopCount(masked);
    }
    var firstMasked := And(src[firstWord], firstMask);
    StoreMerged(runs, r, src, out, firstWord, firstMask, firstMasked);
    more := PopCount(firstMasked);
    var index := firstWord + 1;
    while index < lastWord
      invariant firstWord < index <= lastWord
      invariant Members(out[..]) == Members(src[..]) * CoveredBelow(runs, PartBegin(run, index))
      invariant Count(out[..]) == c0 + more
    {
      var word := src[index];
      FullWordIsMasked(run, index, word);
      StoreOutright(runs, r, src, out, index, 0xFFFF_FFFF_FFFF_FFFF, word);
      more := more + PopCount(word);
      index := index + 1;
    }
    var lastMasked := And(src[lastWord], lastMask);
    StoreOutright(runs, r, src, out, lastWord, lastMask, lastMasked);
    more := more + PopCount(lastMasked);
  }

  lemma FullWordIsMasked(run: Run, i: nat, word: bv64)
    requires run.begin <= run.end && WordOf(run.begin) < i < WordOf(run.end)
    ensures MasksPart(0xFFFF_FFFF_FFFF_FFFF, run, i)
    ensures Bits(word) == Bits(word) * Bits(0xFFFF_FFFF_FFFF_FFFF)
  {
    hide Bits, Range, MasksPart, WordOf, BitOf;
    FullWordMask(run, i);
    BitsOfAllOnes();
  }

  /** out[i] |= masked. */
  method StoreMerged(runs: seq<Run>, ghost r: nat, src: array<bv64>, out: array<bv64>, i: nat, ghost mask: bv64, masked: bv64)
    requires out != src && i < out.Length == src.Length && r < |runs|
    requires runs[r].begin <= runs[r].end && WordOf(runs[r].begin) <= i <= WordOf(runs[r].end)
    requires MasksPart(mask, runs[r], i) && Bits(masked) == Bits(src[i]) * Bits(mask)
    requires Members(out[..]) == Members(src[..]) * CoveredBelow(runs, PartBegin(runs[r], i))
    modifies out
    ensures Members(out[..]) == Members(src[..]) * CoveredBelow(runs, PartEnd(runs[r], i))
    ensures Count(out[..]) == old(Count(out[..])) + PopCount(masked)
  {
    hide Bits, Range, Has, Members, WordOf, BitOf, CoveredBelow, Count, Or, MasksPart, PopCount;
    FillStep(out[..], src[..], runs, r, i, mask, masked);
    ghost var before := out[..];
    out[i] := Or(out[i], masked);
    assert out[..] == before[i := Or(before[i], masked)];
  }

  /** out[i] = masked, into a word nothing was stored in yet. */
  method StoreOutright(runs: seq<Run>, ghost r: nat, src: array<bv64>, out: array<bv64>, i: nat, ghost mask: bv64, masked: bv64)
    requires out != src && i < out.Length == src.Length && r < |runs|
    requires runs[r].begin <= runs[r].end && WordOf(runs[r].begin) < i <= WordOf(runs[r].end)
    requires MasksPart(mask, runs[r], i) && Bits(masked) == Bits(src[i]) * Bits(mask)
    requires Members(out[..]) == Members(src[..]) * CoveredBelow(runs, PartBegin(runs[r], i))
    modifies out
    ensures Members(out[..]) == Members(src[..]) * CoveredBelow(runs, PartEnd(runs[r], i))
    ensures Count(out[..]) == old(Count(out[..])) + PopCount(masked)
  {
    hide Bits, Range, Has, Members, BitOf, CoveredBelow, Count, Or, MasksPart, PopCount;
    FillStep(out[..], src[..], runs, r, i, mask, masked);
    ghost var before := out[..];
    out[i] := masked;
    assert out[..] == before[i := Or(before[i], masked)];
  }

  // ---- the gap-zeroing fill ----------------------------------------------------------------------

  /** The block that a partly written result stands for: its first `next` words, then zeros. */
  ghost predicate Shadow(out: seq<bv64>, v: seq<bv64>, next: nat) {
    && |out| == |v| && next <= |v|
    && (forall j :: 0 <= j < next ==> out[j] == v[j])
    && (forall j :: next <= j < |v| ==> v[j] == 0)
  }

  /** std::fill of words [lo, hi) with zero. */
  method FillZeros(out: array<bv64>, lo: nat, hi: nat)
    requires lo <= hi <= out.Length
    modifies out
    ensures forall j :: 0 <= j < out.Length ==> out[j] == if lo <= j < hi then 0 else old(out[j])
  {
    forall j | lo <= j < hi {
      out[j] := 0;
    }
  }

  lemma OrZero(w: bv64)
    ensures Or(0, w) == w
  {
    hide Bits, Range;
  }

  /** Everything below the frontier is in the shadow block, and counted. */
  ghost predicate Filled(v: seq<bv64>, src: seq<bv64>, runs: seq<Run>, frontier: nat, cardinality: nat) {
    |v| == |src| && Members(v) == Members(src) * CoveredBelow(runs, frontier) && cardinality == Count(v)
  }

  /** The first word of a run: merged when the previous run ended in it, else stored. */
  method PlaceFirst(runs: seq<Run>, ghost r: nat, src: array<bv64>, out: array<bv64>, i: nat, ghost mask: bv64, masked: bv64,
                    next: nat, ghost v: seq<bv64>, cardinality: nat) returns (ghost v': seq<bv64>, cardinality': nat)
    requires out != src && i < out.Length == src.Length && r < |runs|
    requires runs[r].begin <= runs[r].end && WordOf(runs[r].begin) <= i <= WordOf(runs[r].end)
    requires MasksPart(mask, runs[r], i) && Bits(masked) == Bits(src[i]) * Bits(mask)
    requires Shadow(out[..], v, if i < next then next else i) && next <= i + 1
    requires Filled(v, src[..], runs, PartBegin(runs[r], i), cardinality)
    modifies out
    ensures Shadow(out[..], v', i + 1)
    ensures Filled(v', src[..], runs, PartEnd(runs[r], i), cardinality')
  {
    hide Bits, Range, Has, Members, WordOf, BitOf, CoveredBelow, Count, Or, MasksPart, PopCount;
    FillStep(v, src[..], runs, r, i, mask, masked);
    OrZero(masked);
    v' := v[i := Or(v[i], masked)];
    if i < next {
      out[i] := Or(out[i], masked);
    } else {
      out[i] := masked;
    }
    cardinality' := cardinality + PopCount(masked);
  }

  /** A later word of a run. */
  method PlaceNext(runs: seq<Run>, ghost r: nat, src: array<bv64>, out: array<bv64>, i: nat, ghost mask: bv64, masked: bv64,
                   ghost v: seq<bv64>, cardinality: nat) returns (ghost v': seq<bv64>, cardinality': nat)
    requires out != src && i < out.Length == src.Length && r < |runs|
    requires runs[r].begin <= runs[r].end && WordOf(runs[r].begin) <= i <= WordOf(runs[r].end)
    requires MasksPart(mask, runs[r], i) && Bits(masked) == Bits(src[i]) * Bits(mask)
    requires Shadow(out[..], v, i)
    requires Filled(v, src[..], runs, PartBegin(runs[r], i), cardinality)
    modifies out
    ensures Shadow(out[..], v', i + 1)
    ensures Filled(v', src[..], runs, PartEnd(runs[r], i), cardinality')
  {
    hide Bits, Range, Has, Members, WordOf, BitOf, CoveredBelow, Count, Or, MasksPart, PopCount;
    FillStep(v, src[..], runs, r, i, mask, masked);
    OrZero(masked);
    v' := v[i := Or(v[i], masked)];
    out[i] := masked;
    cardinality' := cardinality + PopCount(masked);
  }

  lemma ShadowExtends(out: seq<bv64>, v: seq<bv64>, next: nat, i: nat, zeroed: seq<bv64>)
    requires Shadow(out, v, next) && next <= i <= |out| == |zeroed|
    requires forall j :: 0 <= j < |out| ==> zeroed[j] == if next <= j < i then 0 else out[j]
    ensures Shadow(zeroed, v, i)
  {
  }

  /** One run of the gap-zeroing fill; `next` is the first word not yet written. */
  method FillLongRun(runs: seq<Run>, r: nat, src: array<bv64>, out: array<bv64>, next: nat, cardinality: nat, ghost v: seq<bv64>)
    returns (cardinality': nat, ghost v': seq<bv64>)
    requires out != src && out.Length == src.Length && SortedRuns(runs, 64 * src.Length) && r < |runs|
    requires Shadow(out[..], v, next) && next <= WordOf(runs[r].begin) + 1
    requires Filled(v, src[..], runs, runs[r].begin, cardinality)
    modifies out
    ensures Shadow(out[..], v', WordOf(runs[r].end) + 1)
    ensures Filled(v', src[..], runs, runs[r].end + 1, cardinality')
  {
    hide Bits, Range, Has, Members, WordOf, BitOf, CoveredBelow, Count, FirstMaskByShift, LastMaskByBranch, FirstMask, LastMask,
         And, Or, SortedRuns, MasksPart, PopCount, Shadow, Filled;
    RunInside(runs, r, 64 * src.Length);
    var run := runs[r];
    var firstWord, lastWord := WordOf(run.begin), WordOf(run.end);
    if firstWord > next {
      ghost var before := out[..];
      FillZeros(out, next, firstWord);
      ShadowExtends(before, v, next, firstWord, out[..]);
    }
    var firstMask, lastMask := FirstMaskByShift(BitOf(run.begin)), LastMaskByBranch(BitOf(run.end));
    RunMasks(run);
    if firstWord == lastWord {
      var masked := And(And(src[firstWord], firstMask), lastMask);
      v', cardinality' := PlaceFirst(runs, r, src, out, firstWord, And(firstMask, lastMask), masked, next, v, cardinality);
      return;
    }
    v', cardinality' := PlaceFirst(runs, r, src, out, firstWord, firstMask, And(src[firstWord], firstMask), next, v, cardinality);
    var index := firstWord + 1;
    while index < lastWord
      invariant firstWord < index <= lastWord
      invariant Shadow(out[..], v', index) && Filled(v', src[..], runs, PartBegin(run, index), cardinality')
    {
      FullWordIsMasked(run, index, src[index]);
      v', cardinality' := PlaceNext(runs, r, src, out, index, 0xFFFF_FFFF_FFFF_FFFF, src[index], v', cardinality');
      index := index + 1;
    }
    v', cardinality' := PlaceNext(runs, r, src, out, lastWord, lastMask, And(src[lastWord], lastMask), v', cardinality');
  }

  /** intersect_run_bitset: the many-short-runs fill over a zeroed block, or the gap-zeroing fill. */
  method IntersectRunBitset(runs: seq<Run>, src: array<bv64>, out: array<bv64>) returns (h: Handle)
    requires out != src && out.Length == src.Length && SortedRuns(runs, 64 * src.Length)
    modifies out
    ensures Members(out[..]) == Intersection(src[..], runs)
    ensures h.NoValues? <==> Intersection(src[..], runs) == {}
    ensures h.Bitset? ==> h.cardinality == |Intersection(src[..], runs)|
  {
    hide Bits, Range, Has, Members, WordOf, BitOf, CoveredBelow, Count, SortedRuns;
    var cardinality;
    if |runs| > 32 {
      FillZeros(out, 0, out.Length);
      cardinality := FillManyRuns(runs, src, out);
      CountIsCardinality(out[..]);
    } else {
      cardinality := FillGapByGap(runs, src, out);
    }
    h := if cardinality == 0 then NoValues else Handle.Bitset(cardinality);
  }

  method FillGapByGap(runs: seq<Run>, src: array<bv64>, out: array<bv64>) returns (cardinality: nat)
    requires out != src && out.Length == src.Length && SortedRuns(runs, 64 * src.Length)
    modifies out
    ensures Members(out[..]) == Intersection(src[..], runs)
    ensures cardinality == |Intersection(src[..], runs)|
  {
    hide Bits, Range, Has, Members, WordOf, BitOf, CoveredBelow, Count;
    cardinality := 0;
    var next := 0;
    ghost var v: seq<bv64> := seq(out.Length, _ => 0);
    ZeroWordsAreEmpty(v);
    NothingBelowZero(runs);
    for r := 0 to |runs|
      invariant next == if r == 0 then 0 else WordOf(runs[r - 1].end) + 1
      invariant Shadow(out[..], v, next)
      invariant Filled(v, src[..], runs, Done(runs, r), cardinality)
    {
      GapIsUncovered(runs, r, 64 * src.Length);
      cardinality, v := FillLongRun(runs, r, src, out, next, cardinality, v);
      next := WordOf(runs[r].end) + 1;
    }
    GapIsUncovered(runs, |runs|, 64 * src.Length);
    if next < out.Length {
      FillZeros(out, next, out.Length);
    }
    assert out[..] == v;
    CountIsCardinality(v);
  }

  // ---- clone, then clear the gaps ----------------------------------------------------------------

  /** The values below p that no run covers. */
  ghost function Gaps(runs: seq<Run>, p: nat): set<nat> {
    Range(0, p) - CoveredBelow(runs, p)
  }

  /** Before a run the next gap ends; inside a run the gaps stay. */
  lemma GapsGrow(runs: seq<Run>, r: nat, limit: nat)
    requires SortedRuns(runs, limit) && r <= |runs|
    ensures r < |runs| ==> Gaps(runs, runs[r].begin) == Gaps(runs, Done(runs, r)) + Range(Done(runs, r), runs[r].begin)
    ensures r < |runs| ==> Gaps(runs, runs[r].end + 1) == Gaps(runs, runs[r].begin)
    ensures r == |runs| ==> Gaps(runs, limit) == Gaps(runs, Done(runs, r)) + Range(Done(runs, r), limit)
  {
    hide Range, CoveredBelow;
    GapIsUncovered(runs, r, limit);
    CoveredBelowIsBelow(runs, Done(runs, r));
    if r < |runs| {
      CoveredStep(runs, r, runs[r].begin, runs[r].end + 1);
    }
  }

  /** The lambda clear_bits: clears [begin, end] and counts what was set. Both clone kernels clear the
      same words; the recounting one does not look at the count. */
  method ClearBits(out: array<bv64>, begin: nat, end: nat) returns (removed: nat)
    requires begin <= end < 64 * out.Length
    modifies out
    ensures Members(out[..]) == old(Members(out[..])) - Range(begin, end + 1)
    ensures Count(out[..]) == old(Count(out[..])) - removed
  {
    hide Bits, Range, Has, Members, WordOf, BitOf, Count, FirstMask, LastMask, FirstMaskByShift, LastMaskByBranch, And, PopCount, MasksPart;
    ghost var m0, c0 := Members(out[..]), Count(out[..]);
    var gap := Run(begin, end);
    var firstWord, lastWord := WordOf(begin), WordOf(end);
    var firstMask, lastMask := FirstMaskByShift(BitOf(begin)), LastMaskByBranch(BitOf(end));
    RunMasks(gap);
    if firstWord == lastWord {
      removed := ClearMask(out, firstWord, And(firstMask, lastMask), gap);
      return;
    }
    removed := ClearMask(out, firstWord, firstMask, gap);
    var index := firstWord + 1;
    while index < lastWord
      invariant firstWord < index <= lastWord
      invariant Members(out[..]) == m0 - Range(begin, PartBegin(gap, index))
      invariant Count(out[..]) == c0 - removed
    {
      FullWordMask(gap, index);
      AndNotAllOnes(out[index]);
      var more := ClearMask(out, index, 0xFFFF_FFFF_FFFF_FFFF, gap);
      removed := removed + more;
      index := index + 1;
    }
    var more := ClearMask(out, lastWord, lastMask, gap);
    removed := removed + more;
  }

  /** Storing zero is clearing every bit. */
  lemma AndNotAllOnes(w: bv64)
    ensures AndNot(w, 0xFFFF_FFFF_FFFF_FFFF) == 0
    ensures And(w, 0xFFFF_FFFF_FFFF_FFFF) == w
  {
  }

  method ClearMask(out: array<bv64>, i: nat, mask: bv64, ghost gap: Run) returns (removed: nat)
    requires i < out.Length && gap.begin <= gap.end && WordOf(gap.begin) <= i <= WordOf(gap.end) && MasksPart(mask, gap, i)
    modifies out
    ensures Members(out[..]) == old(Members(out[..])) - Range(PartBegin(gap, i), PartEnd(gap, i))
    ensures Count(out[..]) == old(Count(out[..])) - removed
  {
    hide Bits, Range, Has, Members, WordOf, BitOf, Count, And, AndNot, PopCount, MasksPart;
    ghost var before := out[..];
    MembersOfMasking(BitAndNot, before, i, mask, gap);
    PopCountsOfMasking(before[i], mask);
    CountOfUpdate(before, i, AndNot(before[i], mask));
    removed := PopCount(And(mask, out[i]));
    out[i] := AndNot(out[i], mask);
    assert out[..] == before[i := AndNot(before[i], mask)];
  }

  /** Copies the block and clears the gaps between, before and after the runs. */
  method CloneAndClear(runs: seq<Run>, src: array<bv64>, out: array<bv64>) returns (removed: nat)
    requires out != src && out.Length == src.Length && SortedRuns(runs, 64 * src.Length)
    modifies out
    ensures Members(out[..]) == Intersection(src[..], runs)
    ensures Count(out[..]) == Count(src[..]) - removed
  {
    hide Bits, Range, Has, Members, WordOf, BitOf, CoveredBelow, Count;
    forall j | 0 <= j < out.Length {
      out[j] := src[j];
    }
    assert out[..] == src[..];
    removed := 0;
    var next := 0;
    ghost var m0, c0 := Members(src[..]), Count(src[..]);
    NothingBelowZero(runs);
    for r := 0 to |runs|
      invariant next == Done(runs, r)
      invariant Members(out[..]) == m0 - Gaps(runs, next)
      invariant Count(out[..]) == c0 - removed
    {
      GapIsUncovered(runs, r, 64 * src.Length);
      GapsGrow(runs, r, 64 * src.Length);
      if runs[r].begin > next {
        var more := ClearBits(out, next, runs[r].begin - 1);
        removed := removed + more;
      }
      next := runs[r].end + 1;
    }
    GapIsUncovered(runs, |runs|, 64 * src.Length);
    GapsGrow(runs, |runs|, 64 * src.Length);
    if next < 64 * out.Length {
      var more := ClearBits(out, next, 64 * out.Length - 1);
      removed := removed + more;
    }
    CoveredBelowIsBelow(runs, 64 * src.Length);
  }

  /** intersect_run_bitset_clone_and_recount. */
  method IntersectByCloneAndRecount(runs: seq<Run>, src: array<bv64>, out: array<bv64>) returns (h: Handle)
    requires out != src && out.Length == src.Length && SortedRuns(runs, 64 * src.Length)
    modifies out
    ensures Members(out[..]) == Intersection(src[..], runs)
    ensures h.NoValues? <==> Intersection(src[..], runs) == {}
    ensures h.Bitset? ==> h.cardinality == |Intersection(src[..], runs)|
  {
    hide Bits, Range, Has, Members, WordOf, BitOf, CoveredBelow, Count, SortedRuns;
    var ignored := CloneAndClear(runs, src, out);
    var cardinality := PopCountWords(out);
    h := if cardinality == 0 then NoValues else Handle.Bitset(cardinality);
  }

  /** intersect_run_bitset_dense_runs: the known cardinality less the bits the gaps lost. */
  method IntersectByCloneAndSubtract(runs: seq<Run>, src: array<bv64>, srcCardinality: nat, out: array<bv64>) returns (h: Handle)
    requires out != src && out.Length == src.Length && SortedRuns(runs, 64 * src.Length)
    requires srcCardinality == |Members(src[..])|
    modifies out
    ensures Members(out[..]) == Intersection(src[..], runs)
    ensures h.NoValues? <==> Intersection(src[..], runs) == {}
    ensures h.Bitset? ==> h.cardinality == |Intersection(src[..], runs)|
  {
    hide Bits, Range, Has, Members, WordOf, BitOf, CoveredBelow, Count, SortedRuns;
    CountIsCardinality(src[..]);
    var removed := CloneAndClear(runs, src, out);
    CountIsCardinality(out[..]);
    var cardinality := srcCardinality - removed;
    h := if cardinality == 0 then NoValues else Handle.Bitset(cardinality);
  }
}
