/** The decoders: from the words of a block to the ascending list of its values, each into a buffer
    with exactly the slots it was promised. */
module Decoders {
  import opened Word64
  import opened WordSets
  import opened Runs
  import opened Listing
  import opened BitsetContainer
  import opened ResultKernels

  /** Emits the bits of one word (or of its masked part) behind what is already listed. */
  method EmitWord(out: array<nat>, written: nat, w: bv64, i: nat, ghost s: set<nat>, ghost lo: nat, ghost hi: nat)
    returns (written': nat)
    requires written <= out.Length && |s| <= out.Length
    requires WordHolds(w, s, i, lo, hi) && IsListing(out[..written], Under(s, lo))
    modifies out
    ensures written <= written' <= out.Length
    ensures IsListing(out[..written'], Under(s, hi))
    ensures out[..written] == old(out[..written])
    ensures written' <= written + 64
  {
    hide Bits, Range, TrailingZeros, ClearLowest, IsListing, Under, Emitting, WordHolds;
    EmitStart(out[..written], w, s, i, lo, hi);
    var rest := w;
    written' := written;
    while rest != 0
      invariant written <= written' <= out.Length
      invariant Emitting(out[..written'], rest, s, i, hi)
      invariant out[..written] == old(out[..written])
      invariant written' + |Bits(rest)| == written + |Bits(w)|
      decreases |Bits(rest)|
    {
      EmitBit(out[..written'], rest, s, i, hi);
      EmittedSoFar(out[..written'], rest, s, i, hi);
      ghost var before := out[..written'];
      out[written'] := 64 * i + TrailingZeros(rest);
      assert out[..written' + 1] == before + [64 * i + TrailingZeros(rest)];
      assert Bits(ClearLowest(rest)) == Bits(rest) - {TrailingZeros(rest)};
      rest := ClearLowest(rest);
      written' := written' + 1;
    }
    EmitEnd(out[..written'], s, i, hi);
    PopCountIsCardinality(w);
  }

  lemma EmittedSoFar(list: seq<nat>, w: bv64, s: set<nat>, i: nat, hi: nat)
    requires Emitting(list, w, s, i, hi) && w != 0
    ensures |list| < |s|
  {
    hide Bits, Range, TrailingZeros, ClearLowest, IsListing, Under;
    EmitBit(list, w, s, i, hi);
  }

  /** array_from_bitset: the plain trailing-zero loop. */
  method ArrayFromBitset(words: array<bv64>, cardinality: nat) returns (values: array<nat>)
    requires cardinality == |Members(words[..])|
    ensures fresh(values) && values.Length == cardinality
    ensures IsListing(values[..], Members(words[..]))
  {
    hide Bits, Range, Has, Members, WordOf, BitOf, IsListing, Under, WordHolds;
    values := new nat[cardinality];
    ghost var s := Members(words[..]);
    UnderAll(s, 64 * words.Length);
    var written := 0;
    EmptyListing(values[..0]);
    for i := 0 to words.Length
      invariant written <= values.Length
      invariant IsListing(values[..written], Under(s, 64 * i))
    {
      BlockWordHolds(words[..], i);
      written := EmitWord(values, written, words[i], i, s, 64 * i, 64 * i + 64);
    }
    ListingLength(values[..written], s);
    assert values[..written] == values[..];
  }

  lemma EmptyListing(list: seq<nat>)
    requires list == []
    ensures IsListing(list, {})
  {
  }

  // ---- the branchless intersection decoder -------------------------------------------------------

  /** The common words of two blocks. */
  function Common(a: seq<bv64>, b: seq<bv64>): seq<bv64>
    requires |a| == |b|
  {
    Combined(BitAnd, a, b)
  }

  /** One unconditional store: the lowest bit of the word or, from an empty word, a value that is
      overwritten later, since only a real bit advances the output. */
  method StoreOne(out: array<nat>, pos: nat, w: bv64, i: nat, ghost s: set<nat>, ghost before: nat, ghost w0: bv64)
    returns (pos': nat, w': bv64)
    requires pos < out.Length
    requires Emitting(out[..pos], w, s, i, 64 * i + 64)
    requires pos + |Bits(w)| == before + |Bits(w0)|
    modifies out
    ensures pos' == pos + (if w != 0 then 1 else 0)
    ensures Emitting(out[..pos'], w', s, i, 64 * i + 64)
    ensures pos' + |Bits(w')| == before + |Bits(w0)|
    ensures |Bits(w')| <= |Bits(w)|
  {
    hide Bits, Range, TrailingZeros, ClearLowest, IsListing, Under, Emitting, OneBit, Or;
    var marked := Or(w, OneBit(63));
    BitsAndZero(marked);
    assert 63 in Bits(marked);
    ghost var list := out[..pos];
    out[pos] := 64 * i + TrailingZeros(marked);
    assert out[..pos] == list;
    if w != 0 {
      MarkedTrailingZeros(w);
      EmitBit(list, w, s, i, 64 * i + 64);
      assert out[..pos + 1] == list + [64 * i + TrailingZeros(w)];
      assert Bits(ClearLowest(w)) == Bits(w) - {TrailingZeros(w)};
      assert TrailingZeros(w) in Bits(w);
    }
    pos' := pos + if w != 0 then 1 else 0;
    w' := ClearLowest(w);
  }

  /** Setting bit 63 does not move the lowest bit of a nonzero word. */
  lemma MarkedTrailingZeros(w: bv64)
    requires w != 0
    ensures Or(w, OneBit(63)) != 0 && TrailingZeros(Or(w, OneBit(63))) == TrailingZeros(w)
  {
    hide Bits, Range, TrailingZeros, OneBit, Or;
    var marked := Or(w, OneBit(63));
    BitsAndZero(marked);
    assert 63 in Bits(marked);
    assert TrailingZeros(w) in Bits(w) && TrailingZeros(w) in Bits(marked);
    assert TrailingZeros(marked) in Bits(marked);
    if TrailingZeros(marked) == 63 && 63 !in Bits(w) {
      assert TrailingZeros(w) <= 63;
      assert TrailingZeros(w) < 64;
    }
  }

  /** One word of a group: K unconditional stores, then a loop for what is left. */
  method StoreWord(k: nat, out: array<nat>, pos: nat, w0: bv64, i: nat, ghost s: set<nat>) returns (pos': nat)
    requires k <= 64 && pos + 64 <= out.Length
    requires WordHolds(w0, s, i, 64 * i, 64 * i + 64) && IsListing(out[..pos], Under(s, 64 * i))
    modifies out
    ensures pos <= pos' <= pos + 64
    ensures IsListing(out[..pos'], Under(s, 64 * i + 64))
  {
    hide Bits, Range, TrailingZeros, ClearLowest, IsListing, Under, Emitting, WordHolds;
    EmitStart(out[..pos], w0, s, i, 64 * i, 64 * i + 64);
    PopCountIsCardinality(w0);
    var w := w0;
    pos' := pos;
    for stored := 0 to k
      invariant pos <= pos' <= pos + stored
      invariant Emitting(out[..pos'], w, s, i, 64 * i + 64)
      invariant pos' + |Bits(w)| == pos + |Bits(w0)|
    {
      pos', w := StoreOne(out, pos', w, i, s, pos, w0);
    }
    while w != 0
      invariant pos <= pos' <= pos + 64
      invariant Emitting(out[..pos'], w, s, i, 64 * i + 64)
      invariant pos' + |Bits(w)| == pos + |Bits(w0)|
      decreases |Bits(w)|
    {
      assert TrailingZeros(w) in Bits(w);
      assert |Bits(w)| > 0;
      ghost var left := |Bits(w)|;
      pos', w := StoreOne(out, pos', w, i, s, pos, w0);
      assert |Bits(w)| == left - 1;
    }
    EmitEnd(out[..pos'], s, i, 64 * i + 64);
  }

  /** extract_intersection_setbits_branchless<K>: groups of four words while 256 slots are left. */
  method ExtractBranchless(k: nat, a: array<bv64>, b: array<bv64>, out: array<nat>) returns (index: nat, pos: nat)
    requires k <= 64 && a.Length == b.Length && out as object != a && out as object != b
    modifies out
    ensures index <= a.Length && pos <= out.Length
    ensures a.Length < index + 4 || out.Length < pos + 256
    ensures IsListing(out[..pos], Under(Members(Common(a[..], b[..])), 64 * index))
  {
    hide Bits, Range, Has, Members, WordOf, BitOf, IsListing, Under, WordHolds, And, Or, Combined;
    ghost var common := Common(a[..], b[..]);
    ghost var s := Members(common);
    CommonLength(a[..], b[..]);
    UnderAll(s, 64 * a.Length);
    EmptyListing(out[..0]);
    index, pos := 0, 0;
    while index + 4 <= a.Length && pos + 256 <= out.Length
      invariant index <= a.Length && pos <= out.Length
      invariant IsListing(out[..pos], Under(s, 64 * index))
    {
      var g0, g1 := And(a[index], b[index]), And(a[index + 1], b[index + 1]);
      var g2, g3 := And(a[index + 2], b[index + 2]), And(a[index + 3], b[index + 3]);
      CommonWord(a[..], b[..], index);
      CommonWord(a[..], b[..], index + 1);
      CommonWord(a[..], b[..], index + 2);
      CommonWord(a[..], b[..], index + 3);
      if Or(Or(Or(g0, g1), g2), g3) == 0 {
        EmptyGroup(out[..pos], s, index, g0, g1, g2, g3);
        index := index + 4;
        continue;
      }
      pos := StoreWord(k, out, pos, g0, index, s);
      pos := StoreWord(k, out, pos, g1, index + 1, s);
      pos := StoreWord(k, out, pos, g2, index + 2, s);
      pos := StoreWord(k, out, pos, g3, index + 3, s);
      index := index + 4;
    }
  }

  lemma CommonLength(a: seq<bv64>, b: seq<bv64>)
    requires |a| == |b|
    ensures |Common(a, b)| == |a|
  {
  }

  lemma CommonWord(a: seq<bv64>, b: seq<bv64>, i: nat)
    requires i < |a| == |b|
    ensures WordHolds(And(a[i], b[i]), Members(Common(a, b)), i, 64 * i, 64 * i + 64)
  {
    hide Bits, Range, Has, Members, WordOf, BitOf, WordHolds, And;
    assert Common(a, b)[i] == And(a[i], b[i]);
    BlockWordHolds(Common(a, b), i);
  }

  /** Four empty words are skipped without a store. */
  lemma EmptyGroup(list: seq<nat>, s: set<nat>, i: nat, g0: bv64, g1: bv64, g2: bv64, g3: bv64)
    requires Or(Or(Or(g0, g1), g2), g3) == 0
    requires WordHolds(g0, s, i, 64 * i, 64 * i + 64)
    requires WordHolds(g1, s, i + 1, 64 * (i + 1), 64 * (i + 1) + 64)
    requires WordHolds(g2, s, i + 2, 64 * (i + 2), 64 * (i + 2) + 64)
    requires WordHolds(g3, s, i + 3, 64 * (i + 3), 64 * (i + 3) + 64)
    requires IsListing(list, Under(s, 64 * i))
    ensures IsListing(list, Under(s, 64 * (i + 4)))
  {
    hide Bits, Range, IsListing, Or;
    BitsOfZero();
    var w := Or(Or(Or(g0, g1), g2), g3);
    assert Bits(g0) == {} && Bits(g1) == {} && Bits(g2) == {} && Bits(g3) == {};
    EmptyWord(g0, s, i);
    EmptyWord(g1, s, i + 1);
    EmptyWord(g2, s, i + 2);
    EmptyWord(g3, s, i + 3);
    assert Under(s, 64 * i) == Under(s, 64 * (i + 4));
  }

  lemma EmptyWord(w: bv64, s: set<nat>, i: nat)
    requires WordHolds(w, s, i, 64 * i, 64 * i + 64) && Bits(w) == {}
    ensures forall v :: v in s ==> v < 64 * i || 64 * i + 64 <= v
  {
    hide Bits, Range;
    forall v | v in s && 64 * i <= v ensures 64 * i + 64 <= v {
      var k: nat := v - 64 * i;
      assert k !in Bits(w);
    }
  }

  /** extract_intersection_setbits_portable: the density picks K, and cannot be seen in the result. */
  method ExtractPortable(a: array<bv64>, b: array<bv64>, out: array<nat>)
    requires out as object != a && out as object != b
    requires a.Length == b.Length && out.Length == |Members(a[..]) * Members(b[..])|
    modifies out
    ensures IsListing(out[..], Members(a[..]) * Members(b[..]))
  {
    hide Bits, Range, Has, Members, WordOf, BitOf, IsListing, Under, WordHolds, And, Common;
    ghost var s := Members(Common(a[..], b[..]));
    CommonMembers(a[..], b[..]);
    var n, card := a.Length, out.Length;
    var index: nat, pos: nat;
    if card * 5 < n * 2 {
      index, pos := ExtractBranchless(1, a, b, out);
    } else if card * 5 < n * 4 {
      index, pos := ExtractBranchless(2, a, b, out);
    } else if card < n * 3 {
      index, pos := ExtractBranchless(4, a, b, out);
    } else {
      index, pos := ExtractBranchless(8, a, b, out);
    }
    while index < n && pos < card
      invariant index <= n && pos <= card
      invariant IsListing(out[..pos], Under(s, 64 * index))
    {
      CommonWord(a[..], b[..], index);
      pos := EmitWord(out, pos, And(a[index], b[index]), index, s, 64 * index, 64 * index + 64);
      index := index + 1;
    }
    UnderIsAll(out[..pos], s, 64 * index, 64 * n);
    ListingLength(out[..pos], s);
    assert out[..pos] == out[..];
  }

  lemma CommonMembers(a: seq<bv64>, b: seq<bv64>)
    requires |a| == |b|
    ensures Members(Common(a, b)) == Members(a) * Members(b)
    ensures Members(Common(a, b)) <= Range(0, 64 * |a|)
  {
    hide Bits, Range, Has, Members, WordOf, BitOf;
    MembersOfCombined(BitAnd, a, b);
  }

  /** A full listing, or one that reached the end of the block, lists everything. */
  lemma UnderIsAll(list: seq<nat>, s: set<nat>, f: nat, end: nat)
    requires IsListing(list, Under(s, f)) && s <= Range(0, end)
    requires f == end || |list| == |s|
    ensures IsListing(list, s)
  {
    hide Range, IsListing;
    ListingLength(list, Under(s, f));
    SubsetIsNoLarger(Under(s, f), s);
    assert f == end ==> Under(s, f) == s;
  }

  // ---- the sparse run intersection ---------------------------------------------------------------

  /** intersect_run_bitset_sparse: only the words the runs cover are read, their masked bits emitted in
      order; `slots` bounds the result from above. */
  method IntersectSparse(runs: seq<Run>, src: array<bv64>, slots: nat) returns (values: array<nat>, written: nat)
    requires SortedRuns(runs, 64 * src.Length) && |Intersection(src[..], runs)| <= slots
    ensures fresh(values) && written <= values.Length == slots
    ensures IsListing(values[..written], Intersection(src[..], runs))
    ensures written == |Intersection(src[..], runs)|
  {
    hide Bits, Range, Has, Members, WordOf, BitOf, IsListing, Under, CoveredBelow;
    values := new nat[slots];
    written := 0;
    ghost var s := Intersection(src[..], runs);
    IntersectionIsBelow(src[..], runs);
    UnderAll(s, 64 * src.Length);
    EmptyListing(values[..0]);
    for r := 0 to |runs|
      invariant written <= values.Length
      invariant IsListing(values[..written], Under(s, Done(runs, r)))
    {
      SkipGap(src[..], runs, r);
      written := EmitRun(runs, r, src, values, written);
    }
    SkipGap(src[..], runs, |runs|);
    ListingLength(values[..written], s);
  }

  lemma IntersectionIsBelow(src: seq<bv64>, runs: seq<Run>)
    ensures Intersection(src, runs) <= Range(0, 64 * |src|)
  {
    hide Bits, Range, Has, WordOf, BitOf;
  }

  lemma SkipGap(src: seq<bv64>, runs: seq<Run>, r: nat)
    requires SortedRuns(runs, 64 * |src|) && r <= |runs|
    ensures var s := Intersection(src, runs);
            Under(s, if r < |runs| then runs[r].begin else 64 * |src|) == Under(s, Done(runs, r))
  {
    hide Bits, Range, Has, Members, WordOf, BitOf, CoveredBelow;
    var stop := if r < |runs| then runs[r].begin else 64 * |src|;
    var s := Intersection(src, runs);
    GapIsUncovered(runs, r, 64 * |src|);
    forall v | v in s && Done(runs, r) <= v < stop ensures false {
      InCoveredBelow(runs, v, 64 * |src|, stop);
      CoveredBelowIsBelow(runs, Done(runs, r));
    }
  }

  lemma InCoveredBelow(runs: seq<Run>, v: nat, p: nat, q: nat)
    requires v in CoveredBelow(runs, p) && v < q
    ensures v in CoveredBelow(runs, q)
  {
    hide Range;
  }

  /** The words of one run. */
  method EmitRun(runs: seq<Run>, r: nat, src: array<bv64>, values: array<nat>, written: nat) returns (written': nat)
    requires SortedRuns(runs, 64 * src.Length) && r < |runs| && values as object != src
    requires written <= values.Length && |Intersection(src[..], runs)| <= values.Length
    requires IsListing(values[..written], Under(Intersection(src[..], runs), runs[r].begin))
    modifies values
    ensures written <= written' <= values.Length
    ensures IsListing(values[..written'], Under(Intersection(src[..], runs), runs[r].end + 1))
  {
    hide Bits, Range, Has, Members, WordOf, BitOf, IsListing, Under, CoveredBelow, And, FirstMask, LastMask, FirstMaskByShift,
         LastMaskByBranch, MasksPart, SortedRuns, Intersection, WordHolds;
    RunInside(runs, r, 64 * src.Length);
    ghost var s := Intersection(src[..], runs);
    var run := runs[r];
    var firstWord, lastWord := WordOf(run.begin), WordOf(run.end);
    var firstMask, lastMask := FirstMaskByShift(BitOf(run.begin)), LastMaskByBranch(BitOf(run.end));
    RunMasks(run);
    if firstWord == lastWord {
      MaskedWordHolds(src[..], runs, r, firstWord, And(firstMask, lastMask), And(And(src[firstWord], firstMask), lastMask));
      written' := EmitWord(values, written, And(And(src[firstWord], firstMask), lastMask), firstWord, s,
                           PartBegin(run, firstWord), PartEnd(run, firstWord));
      return;
    }
    MaskedWordHolds(src[..], runs, r, firstWord, firstMask, And(src[firstWord], firstMask));
    written' := EmitWord(values, written, And(src[firstWord], firstMask), firstWord, s,
                         PartBegin(run, firstWord), PartEnd(run, firstWord));
    var index := firstWord + 1;
    while index < lastWord
      invariant firstWord < index <= lastWord && written <= written' <= values.Length
      invariant IsListing(values[..written'], Under(s, PartBegin(run, index)))
    {
      FullWordIsMasked(run, index, src[index]);
      MaskedWordHolds(src[..], runs, r, index, 0xFFFF_FFFF_FFFF_FFFF, src[index]);
      written' := EmitWord(values, written', src[index], index, s, PartBegin(run, index), PartEnd(run, index));
      index := index + 1;
    }
    MaskedWordHolds(src[..], runs, r, lastWord, lastMask, And(src[lastWord], lastMask));
    written' := EmitWord(values, written', And(src[lastWord], lastMask), lastWord, s,
                         PartBegin(run, lastWord), PartEnd(run, lastWord));
  }

  lemma MaskedWordHolds(src: seq<bv64>, runs: seq<Run>, r: nat, i: nat, mask: bv64, masked: bv64)
    requires SortedRuns(runs, 64 * |src|) && r < |runs| && i < |src|
    requires runs[r].begin <= runs[r].end && WordOf(runs[r].begin) <= i <= WordOf(runs[r].end)
    requires MasksPart(mask, runs[r], i) && Bits(masked) == Bits(src[i]) * Bits(mask)
    ensures WordHolds(masked, Intersection(src, runs), i, PartBegin(runs[r], i), PartEnd(runs[r], i))
  {
    hide Bits, Range, Has, Members, WordOf, BitOf;
    var lo, hi := PartBegin(runs[r], i), PartEnd(runs[r], i);
    forall k: nat ensures k in Bits(masked) <==> lo <= 64 * i + k < hi && 64 * i + k in Intersection(src, runs) {
      if k < 64 {
        MemberBit(src, i, k);
        if lo <= 64 * i + k < hi {
          assert Covered(runs, 64 * i + k);
        }
      }
    }
  }
}
