/** The kernels against each other: the choice between them cannot be seen in the result. */
module Agreement {
  import opened Word64
  import opened WordSets
  import opened Runs
  import opened Listing
  import opened LazyCount
  import opened BitsetContainer
  import opened HarleySeal
  import opened ResultKernels
  import opened Decoders

  /** The masked fill, the two clones and the sparse extraction of one run-and-bitset intersection:
      the same words, the same handle, and the same values as the decoded words. */
  method RunIntersectionsAgree(runs: seq<Run>, src: array<bv64>, srcCardinality: nat, slots: nat)
    returns (filled: array<bv64>, recounted: array<bv64>, subtracted: array<bv64>, h0: Handle, h1: Handle, h2: Handle, values: seq<nat>)
    requires SortedRuns(runs, 64 * src.Length) && srcCardinality == |Members(src[..])| && |Intersection(src[..], runs)| <= slots
    ensures filled[..] == recounted[..] == subtracted[..]
    ensures Members(filled[..]) == Members(src[..]) * CoveredBelow(runs, 64 * src.Length)
    ensures IsListing(values, Members(filled[..]))
    ensures h0 == h1 == h2 && (h0.NoValues? <==> values == []) && (h0.Bitset? ==> h0.cardinality == |values|)
  {
    hide Bits, Range, Has, Members, WordOf, BitOf, CoveredBelow, SortedRuns, IsListing;
    filled, recounted, subtracted := new bv64[src.Length], new bv64[src.Length], new bv64[src.Length];
    h0 := IntersectRunBitset(runs, src, filled);
    h1 := IntersectByCloneAndRecount(runs, src, recounted);
    h2 := IntersectByCloneAndSubtract(runs, src, srcCardinality, subtracted);
    MembersDetermineWords(filled[..], recounted[..]);
    MembersDetermineWords(filled[..], subtracted[..]);
    var buffer, written := IntersectSparse(runs, src, slots);
    values := buffer[..written];
  }

  /** The fused combine and the plain loop leave the same words and the same count. */
  method CombinesAgree(op: SetOperation, a: array<bv64>, b: array<bv64>, copy: array<bv64>, lanes: nat) returns (plain: nat, fused: nat)
    requires a != copy && a != b && copy != b && a.Length == b.Length == copy.Length && a[..] == copy[..] && lanes > 0
    modifies a, copy
    ensures a[..] == copy[..] && plain == fused
    ensures Members(a[..]) == ApplySet(op, old(Members(a[..])), old(Members(b[..]))) && plain == |Members(a[..])|
  {
    hide Bits, Range, Has, Members, WordOf, BitOf, Count, Combined, ApplySet;
    MembersOfCombined(op, a[..], b[..]);
    plain := CombineAndCount(op, a, b);
    fused := FusedCombineAndCount(op, copy, b, lanes);
    CountIsCardinality(a[..]);
  }

  /** Scattering a strictly ascending array into an empty bitset and decoding it gives the array back. */
  method ScatterThenDecode(values: seq<nat>, wordCount: nat) returns (decoded: array<nat>)
    requires StrictlyAscending(values) && AllBelow(values, 64 * wordCount)
    ensures decoded[..] == values
  {
    hide Bits, Range, Has, Members, WordOf, BitOf;
    var bitset := new BitsetContainer.Bitset(wordCount);
    bitset.AddArrayValues(values, false);
    assert bitset.View().members == ValuesOf(values);
    assert !bitset.stale;
    decoded := ArrayFromBitset(bitset.words, bitset.stored);
    ListingIsUnique(decoded[..], values);
  }

  /** Flipping the values of one array twice restores the words, and the count if it was exact. */
  method FlipTwiceRestores(b: BitsetContainer.Bitset, values: seq<nat>)
    requires b.Valid() && StrictlyAscending(values) && AllBelow(values, b.Domain())
    modifies b, b.words
    ensures b.words[..] == old(b.words[..]) && !b.stale && b.stored == |Members(b.words[..])|
    ensures !old(b.stale) ==> b.stored == old(b.stored)
  {
    hide Bits, Range, Has, Members, WordOf, BitOf, Step, Sound;
    ghost var h0, before := b.View(), b.words[..];
    ValuesAreBelow(values, b.Domain());
    FlipTwiceIsNothing(h0, FlipArray(ValuesOf(values)), b.Domain());
    b.FlipArrayValues(values, false);
    b.FlipArrayValues(values, false);
    SettledIsExact(h0, b.Domain());
    MembersDetermineWords(b.words[..], before);
  }

  /** Flipping the values of one run list twice does. */
  method FlipRunsTwiceRestores(b: BitsetContainer.Bitset, runs: seq<Run>)
    requires b.Valid() && SortedRuns(runs, b.Domain())
    modifies b, b.words
    ensures b.words[..] == old(b.words[..]) && !b.stale && b.stored == |Members(b.words[..])|
    ensures !old(b.stale) ==> b.stored == old(b.stored)
  {
    hide Bits, Range, Has, Members, WordOf, BitOf, Step, Sound, CoveredBelow, SortedRuns;
    ghost var h0, before := b.View(), b.words[..];
    CoveredBelowIsBelow(runs, b.Domain());
    FlipTwiceIsNothing(h0, FlipRuns(CoveredBelow(runs, b.Domain())), b.Domain());
    b.FlipRunValues(runs, false);
    b.FlipRunValues(runs, false);
    SettledIsExact(h0, b.Domain());
    MembersDetermineWords(b.words[..], before);
  }

  /** Combining with one other block twice by exclusive or does. */
  method XorTwiceRestores(b: BitsetContainer.Bitset, rhs: array<bv64>)
    requires b.Valid() && rhs.Length == b.words.Length && rhs != b.words
    modifies b, b.words
    ensures b.words[..] == old(b.words[..]) && !b.stale && b.stored == |Members(b.words[..])|
    ensures !old(b.stale) ==> b.stored == old(b.stored)
  {
    hide Bits, Range, Has, Members, WordOf, BitOf, Step, Sound;
    ghost var h0, before := b.View(), b.words[..];
    FlipTwiceIsNothing(h0, Change.Combine(BitXor, Members(rhs[..])), b.Domain());
    b.Combine(BitXor, rhs);
    b.Combine(BitXor, rhs);
    SettledIsExact(h0, b.Domain());
    MembersDetermineWords(b.words[..], before);
  }

  /** The grouped and the unrolled scatter leave the same words and report the same gain. */
  method ScattersAgree(a: BitsetContainer.Bitset, b: BitsetContainer.Bitset, values: seq<nat>) returns (grouped: nat, unrolled: nat)
    requires a.words != b.words && a.words[..] == b.words[..] && |values| > 0 && AllBelow(values, a.Domain())
    modifies a.words, b.words
    ensures a.words[..] == b.words[..] && grouped == unrolled
    ensures Members(a.words[..]) == old(Members(a.words[..])) + ValuesOf(values)
  {
    hide Bits, Range, Has, Members, WordOf, BitOf, Count;
    assert |a.words[..]| == |b.words[..]|;
    grouped := a.AddGrouped(values);
    unrolled := b.AddUnrolled(values);
    MembersDetermineWords(a.words[..], b.words[..]);
  }
}
