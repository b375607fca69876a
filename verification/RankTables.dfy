/** Two compressed rank indexes over a set of ids, and the sorted array they must agree with. */
module RankTables {
  import opened Word64
  import opened WordSets
  import opened Listing
  import opened BitsetContainer

  const ID_LIMIT: nat := 0x1_0000_0000

  datatype Option<T> = None | Some(value: T)

  /** 32-bit and 16-bit stores. */
  function Wrap32(n: nat): (r: nat)
    ensures n < 0x1_0000_0000 ==> r == n
  {
    n % 0x1_0000_0000
  }

  function Wrap16(n: nat): (r: nat)
    ensures n < 0x1_0000 ==> r == n
  {
    n % 0x1_0000
  }

  /** The specification: the position of x among the ids, if it is one. */
  ghost predicate IsIndex(ids: seq<nat>, x: nat, index: Option<nat>) {
    match index
    case None => x !in ids
    case Some(i) => i < |ids| && ids[i] == x
  }

  lemma IndexIsUnique(ids: seq<nat>, x: nat, a: Option<nat>, b: Option<nat>)
    requires StrictlyAscending(ids) && IsIndex(ids, x, a) && IsIndex(ids, x, b)
    ensures a == b
  {
    if a.Some? && b.Some? {
      assert !(a.value < b.value) && !(b.value < a.value);
    }
  }

  // ---- bits below a position ---------------------------------------------------------------------

  lemma SingleAtZero()
    ensures SingleMask(Shift(0)) - 1 == 0
  {
  }

  lemma DecrementedMask(b: nat)
    requires 0 < b < 64
    ensures SingleMask(Shift(b)) - 1 == LastMask(b - 1)
  {
    hide Bits, Shift, SingleMask, LastMask, Range;
    assert LastMaskByBranch(b - 1) == SingleMask(Shift(b)) - 1;
  }

  lemma BitsOfBelowMask(b: nat)
    requires b < 64
    ensures Bits(SingleMask(Shift(b)) - 1) == Range(0, b)
  {
    hide Bits, Shift, SingleMask, LastMask;
    if b == 0 {
      SingleAtZero();
      BitsOfZero();
    } else {
      DecrementedMask(b);
    }
  }

  /** ( 1 << b ) - 1. */
  function BelowMask(b: nat): (r: bv64)
    requires b < 64
    ensures Bits(r) == Range(0, b)
  {
    hide Bits, Shift, SingleMask, Range;
    BitsOfBelowMask(b);
    SingleMask(Shift(b)) - 1
  }

  /** How many members lie below 64w + b: the words before, and the masked part of word w. */
  lemma CountBelow(words: seq<bv64>, w: nat, b: nat)
    requires w < |words| && b < 64
    ensures |Under(Members(words), 64 * w + b)| == Count(words[..w]) + PopCount(And(words[w], BelowMask(b)))
  {
    hide Bits, Range, Has, Members, WordOf, BitOf, BelowMask, And;
    var before := words[..w];
    var masked := And(words[w], BelowMask(b));
    var part := Lifted(Bits(masked), 64 * w);
    forall v: nat ensures v in Under(Members(words), 64 * w + b) <==> v in Members(before) + part {
      MemberParts(words, v);
      MemberParts(before, v);
      if WordOf(v) == w {
        assert v - 64 * w == BitOf(v);
        assert v in part <==> BitOf(v) in Bits(masked);
      } else {
        assert v !in part;
      }
    }
    assert Members(before) !! part by {
      forall v: nat | v in Members(before) ensures v !in part {
        MemberParts(before, v);
      }
    }
    assert Under(Members(words), 64 * w + b) == Members(before) + part;
    CountIsCardinality(before);
    LiftedCard(Bits(masked), 64 * w);
    PopCountIsCardinality(masked);
  }

  /** The ids below x are the first ones. */
  lemma {:induction false} PositionIsCount(ids: seq<nat>, i: nat)
    requires StrictlyAscending(ids) && i < |ids|
    ensures |Under(ValuesOf(ids), ids[i])| == i
  {
    var before := ids[..i];
    forall v: nat ensures v in Under(ValuesOf(ids), ids[i]) <==> v in ValuesOf(before) {
      if v in Under(ValuesOf(ids), ids[i]) {
        var j :| 0 <= j < |ids| && ids[j] == v;
        assert j < i && before[j] == v;
      }
    }
    assert Under(ValuesOf(ids), ids[i]) == ValuesOf(before);
    ListingLength(before, ValuesOf(before));
  }

  // ---- the flat table ----------------------------------------------------------------------------

  /** A bit string and a running count at each word. */
  class FlatTable {
    const words: array<bv64>
    const prefix: array<nat>

    /** The words hold the ids; every prefix is the number of ids in the words before it. */
    ghost predicate Valid(ids: seq<nat>)
      reads words, prefix
    {
      && prefix.Length == words.Length <= ID_LIMIT / 64
      && StrictlyAscending(ids) && Members(words[..]) == ValuesOf(ids)
      && (forall w :: 0 <= w < words.Length ==> prefix[w] == Count(words[..w]))
    }

    constructor (ids: seq<nat>)
      requires |ids| > 0 && StrictlyAscending(ids) && AllBelow(ids, ID_LIMIT)
      ensures Valid(ids) && fresh(words) && fresh(prefix)
      ensures words.Length == WordOf(ids[|ids| - 1]) + 1
    {
      words := new bv64[WordOf(ids[|ids| - 1]) + 1](_ => 0);
      prefix := new nat[WordOf(ids[|ids| - 1]) + 1];
      new;
      hide Bits, Range, Has, Members, WordOf, BitOf, ValuesOf;
      ZeroWordsAreEmpty(words[..]);
      SetIds(words, ids);
      FillPrefix(words, prefix);
    }

    /** words[ id >> 6 ] |= 1 << ( id & 63 ). */
    static method SetIds(words: array<bv64>, ids: seq<nat>)
      requires StrictlyAscending(ids) && |ids| > 0 && words.Length == WordOf(ids[|ids| - 1]) + 1
      requires Members(words[..]) == {}
      modifies words
      ensures Members(words[..]) == ValuesOf(ids)
    {
      hide Bits, Range, Has, Members, WordOf, BitOf, Or, OneBit;
      for j := 0 to |ids|
        invariant Members(words[..]) == ValuesOf(ids[..j])
      {
        var id := ids[j];
        assert id <= ids[|ids| - 1];
        ghost var before := words[..];
        words[WordOf(id)] := Or(words[WordOf(id)], OneBit(BitOf(id)));
        assert words[..] == before[WordOf(id) := Or(before[WordOf(id)], OneBit(BitOf(id)))];
        MembersWithBit(before, id, Or(before[WordOf(id)], OneBit(BitOf(id))));
        ValuesOfNext(ids, j);
      }
      assert ids[..|ids|] == ids;
    }

    /** The running count, in 32 bits: it is exact at every word. */
    static method FillPrefix(words: array<bv64>, prefix: array<nat>)
      requires prefix as object != words && prefix.Length == words.Length <= ID_LIMIT / 64
      modifies prefix
      ensures forall w :: 0 <= w < words.Length ==> prefix[w] == Count(words[..w])
    {
      hide Bits, Range, PopCount, Count;
      var running := 0;
      CountOfNothing();
      for w := 0 to words.Length
        invariant running == Wrap32(Count(words[..w]))
        invariant forall j :: 0 <= j < w ==> prefix[j] == Count(words[..j])
      {
        CountOfNext(words[..], w);
        assert words[..][..w] == words[..w] && words[..][..w + 1] == words[..w + 1];
        prefix[w] := running;
        running := Wrap32(running + PopCount(words[w]));
      }
    }

    /** test: whether x is an id, for any x. */
    method Test(x: nat, ghost ids: seq<nat>) returns (present: bool)
      requires Valid(ids)
      ensures present <==> x in ids
    {
      hide Bits, Range, Has, Members, WordOf, BitOf, TestBit, Count;
      MemberParts(words[..], x);
      assert x in ValuesOf(ids) <==> x in ids;
      present := WordOf(x) < words.Length && TestBit(words[WordOf(x)], BitOf(x));
    }

    /** index_of: rank if present, absent otherwise. The caller asks for keys inside the words. */
    method IndexOf(x: nat, ghost ids: seq<nat>) returns (index: Option<nat>)
      requires Valid(ids) && WordOf(x) < words.Length && AllBelow(ids, ID_LIMIT)
      ensures IsIndex(ids, x, index)
    {
      hide Bits, Range, Has, Members, WordOf, BitOf, And, BelowMask, TestBit, Count, ValuesOf;
      var w := WordOf(x);
      var below := Wrap32(prefix[w] + PopCount(And(words[w], BelowMask(BitOf(x)))));
      RankIsPosition(words[..], ids, x);
      assert words[..][..w] == words[..w];
      index := if TestBit(words[w], BitOf(x)) then Some(below) else None;
    }
  }

  /** For an id, the number of members below it is its position; it fits 32 bits. */
  lemma RankIsPosition(words: seq<bv64>, ids: seq<nat>, x: nat)
    requires StrictlyAscending(ids) && AllBelow(ids, ID_LIMIT) && Members(words) == ValuesOf(ids)
    requires WordOf(x) < |words| <= ID_LIMIT / 64
    ensures var rank := Count(words[..WordOf(x)]) + PopCount(And(words[WordOf(x)], BelowMask(BitOf(x))));
            if BitOf(x) in Bits(words[WordOf(x)]) then rank < ID_LIMIT && IsIndex(ids, x, Some(rank)) else IsIndex(ids, x, None)
  {
    hide Bits, Range, Has, Members, WordOf, BitOf, And, BelowMask, Count, PopCount;
    MemberParts(words, x);
    CountBelow(words, WordOf(x), BitOf(x));
    if x in ValuesOf(ids) {
      var i :| 0 <= i < |ids| && ids[i] == x;
      PositionIsCount(ids, i);
      PositionIsAtMostValue(ids, i);
    }
  }

  lemma {:induction false} PositionIsAtMostValue(ids: seq<nat>, i: nat)
    requires StrictlyAscending(ids) && i < |ids|
    ensures i <= ids[i]
  {
    if i > 0 {
      PositionIsAtMostValue(ids, i - 1);
    }
  }

  /** w >> 10. */
  function BlockOf(w: nat): (b: nat)
    ensures 1024 * b <= w < 1024 * b + 1024
  {
    w / 1024
  }

  // ---- the narrow table --------------------------------------------------------------------------

  /** A 16-bit count per word relative to its block of 1024 words, and a 32-bit base per block. */
  class FlatNarrowTable {
    const words: array<bv64>
    const count: array<nat>
    const base: array<nat>

    ghost predicate Valid(ids: seq<nat>)
      reads words, count, base
    {
      && count.Length == words.Length <= ID_LIMIT / 64 && base.Length == BlockOf(words.Length) + 1
      && StrictlyAscending(ids) && Members(words[..]) == ValuesOf(ids)
      && (forall w :: 0 <= w < words.Length ==> count[w] < 0x1_0000 && base[BlockOf(w)] + count[w] == Count(words[..w]))
    }

    constructor (flat: FlatTable, ghost ids: seq<nat>)
      requires flat.Valid(ids)
      ensures Valid(ids) && fresh(words) && words[..] == flat.words[..]
      ensures forall w :: 0 <= w < words.Length ==> base[BlockOf(w)] + count[w] == flat.prefix[w]
    {
      words := new bv64[flat.words.Length](i requires 0 <= i < flat.words.Length reads flat.words => flat.words[i]);
      count := new nat[flat.words.Length];
      base := new nat[BlockOf(flat.words.Length) + 1](_ => 0);
      new;
      hide Bits, Range, Has, Members, ValuesOf, PopCount, Count;
      assert words[..] == flat.words[..];
      FillCounts(words, count, base);
      forall w | 0 <= w < words.Length ensures words[..w] == flat.words[..w] {
        assert words[..w] == words[..][..w] && flat.words[..w] == flat.words[..][..w];
      }
    }

    /** The counts restart at every block, so the 16-bit store never truncates. */
    static method FillCounts(words: array<bv64>, count: array<nat>, base: array<nat>)
      requires count != base && count as object != words && base as object != words
      requires count.Length == words.Length <= ID_LIMIT / 64 && base.Length == BlockOf(words.Length) + 1
      modifies count, base
      ensures forall w :: 0 <= w < words.Length ==> count[w] < 0x1_0000 && base[BlockOf(w)] + count[w] == Count(words[..w])
    {
      hide Bits, Range, PopCount, Count, BlockOf, IsFirst, Wrap16, Wrap32;
      var beforeBlock: nat, within: nat := 0, 0;
      CountOfNothing();
      for w := 0 to words.Length
        invariant beforeBlock + within == Count(words[..w])
        invariant w == 0 ==> beforeBlock == within == 0
        invariant w > 0 ==> within <= 64 * (w - 1024 * BlockOf(w - 1)) && base[BlockOf(w - 1)] == beforeBlock
        invariant forall j :: 0 <= j < w ==> count[j] < 0x1_0000 && base[BlockOf(j)] + count[j] == Count(words[..j])
      {
        CountOfNext(words[..], w);
        assert words[..][..w] == words[..w] && words[..][..w + 1] == words[..w + 1];
        if IsFirst(w) {
          CountIsBounded(words[..w]);
          FirstOfBlock(w);
          beforeBlock := Wrap32(beforeBlock + within);
          within := 0;
          base[BlockOf(w)] := beforeBlock;
        } else {
          LaterInBlock(w);
        }
        count[w] := Wrap16(within);
        within := within + PopCount(words[w]);
      }
    }

    method IndexOf(x: nat, ghost ids: seq<nat>) returns (index: Option<nat>)
      requires Valid(ids) && WordOf(x) < words.Length && AllBelow(ids, ID_LIMIT)
      ensures IsIndex(ids, x, index)
    {
      hide Bits, Range, Has, Members, WordOf, BitOf, And, BelowMask, TestBit, Count, ValuesOf;
      var w := WordOf(x);
      var below := Wrap32(base[BlockOf(w)] + count[w] + PopCount(And(words[w], BelowMask(BitOf(x)))));
      RankIsPosition(words[..], ids, x);
      assert words[..][..w] == words[..w];
      index := if TestBit(words[w], BitOf(x)) then Some(below) else None;
    }
  }

  /** ( w & 1023 ) == 0. */
  predicate IsFirst(w: nat) {
    w % 1024 == 0
  }

  lemma FirstOfBlock(w: nat)
    requires IsFirst(w)
    ensures w == 1024 * BlockOf(w)
    ensures forall j: nat :: j < w ==> BlockOf(j) != BlockOf(w)
  {
  }

  lemma LaterInBlock(w: nat)
    requires !IsFirst(w)
    ensures w > 0 && BlockOf(w - 1) == BlockOf(w)
  {
  }

  lemma CountIsBounded(words: seq<bv64>)
    ensures Count(words) <= 64 * |words|
  {
  }

  // ---- the sorted array --------------------------------------------------------------------------

  /** The 32-bit word the tables answer with: the rank, or npos. */
  function Encoded(index: Option<nat>): (r: nat)
    ensures r < ID_LIMIT
  {
    match index
    case None => ID_LIMIT - 1
    case Some(i) => Wrap32(i)
  }

  /** npos tells an absent key from a present one for every key but the greatest of a table that holds
      all 2^32 ids, whose rank is npos itself. */
  lemma AbsentIsTold(ids: seq<nat>, x: nat, index: Option<nat>)
    requires StrictlyAscending(ids) && AllBelow(ids, ID_LIMIT) && IsIndex(ids, x, index)
    ensures (Encoded(index) == Encoded(None) <==> x !in ids) <==> !(|ids| == ID_LIMIT && x == ID_LIMIT - 1)
  {
    if |ids| > 0 {
      PositionIsAtMostValue(ids, |ids| - 1);
    }
    if index.Some? {
      PositionIsAtMostValue(ids, index.value);
    }
  }

  /** std::ranges::lower_bound, then an equality test. */
  method SortedIndexOf(ids: seq<nat>, x: nat) returns (index: Option<nat>)
    requires StrictlyAscending(ids)
    ensures IsIndex(ids, x, index)
  {
    var low, high := 0, |ids|;
    while low < high
      invariant 0 <= low <= high <= |ids|
      invariant forall i :: 0 <= i < low ==> ids[i] < x
      invariant forall i :: high <= i < |ids| ==> x <= ids[i]
    {
      var middle := (low + high) / 2;
      if ids[middle] < x {
        low := middle + 1;
      } else {
        high := middle;
      }
    }
    index := if low < |ids| && ids[low] == x then Some(low) else None;
  }

  /** The three arms give one answer for every key inside the table. */
  method ThreeArmsAgree(ids: seq<nat>, x: nat) returns (baseline: Option<nat>, narrow: Option<nat>, sorted: Option<nat>)
    requires |ids| > 0 && StrictlyAscending(ids) && AllBelow(ids, ID_LIMIT) && x <= ids[|ids| - 1]
    ensures baseline == narrow == sorted && IsIndex(ids, x, sorted)
  {
    var flat := new FlatTable(ids);
    var narrowTable := new FlatNarrowTable(flat, ids);
    assert WordOf(x) <= WordOf(ids[|ids| - 1]);
    assert narrowTable.words.Length == flat.words.Length by {
      assert |narrowTable.words[..]| == |flat.words[..]|;
    }
    hide WordOf;
    baseline := flat.IndexOf(x, ids);
    narrow := narrowTable.IndexOf(x, ids);
    sorted := SortedIndexOf(ids, x);
    IndexIsUnique(ids, x, baseline, narrow);
    IndexIsUnique(ids, x, narrow, sorted);
  }
}
