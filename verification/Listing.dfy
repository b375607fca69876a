/** Strictly ascending lists of values, and how a list of a set grows as a word is decoded bit by bit. */
module Listing {
  import opened Word64
  import opened WordSets

  /** The values of an array container. */
  function ValuesOf(values: seq<nat>): set<nat> {
    set v | v in values
  }

  predicate AllBelow(values: seq<nat>, limit: nat) {
    forall i :: 0 <= i < |values| ==> values[i] < limit
  }

  predicate StrictlyAscending(values: seq<nat>) {
    forall i, j :: 0 <= i < j < |values| ==> values[i] < values[j]
  }

  /** The list holds exactly the set, in ascending order, each value once. */
  predicate IsListing(list: seq<nat>, s: set<nat>) {
    StrictlyAscending(list) && ValuesOf(list) == s
  }

  lemma ValuesAreBelow(values: seq<nat>, limit: nat)
    requires AllBelow(values, limit)
    ensures ValuesOf(values) <= Range(0, limit)
  {
    hide Range;
  }

  lemma ValuesOfNext(values: seq<nat>, j: nat)
    requires j < |values|
    ensures ValuesOf(values[..j + 1]) == ValuesOf(values[..j]) + {values[j]}
  {
    assert values[..j + 1] == values[..j] + [values[j]];
  }

  lemma ValuesOfConcat(a: seq<nat>, b: seq<nat>)
    ensures ValuesOf(a + b) == ValuesOf(a) + ValuesOf(b)
  {
  }

  lemma {:induction false} ListingLength(list: seq<nat>, s: set<nat>)
    requires IsListing(list, s)
    ensures |list| == |s|
  {
    if list != [] {
      var n := |list| - 1;
      ValuesOfNext(list, n);
      assert list[..n + 1] == list;
      ListingLength(list[..n], ValuesOf(list[..n]));
      assert list[n] !in ValuesOf(list[..n]);
    }
  }

  lemma LastIsGreatest(list: seq<nat>)
    requires list != [] && StrictlyAscending(list)
    ensures var last := list[|list| - 1];
            && last in ValuesOf(list)
            && (forall v :: v in ValuesOf(list) ==> v <= last)
            && ValuesOf(list[..|list| - 1]) == ValuesOf(list) - {last}
            && StrictlyAscending(list[..|list| - 1])
            && list == list[..|list| - 1] + [last]
  {
    var n := |list| - 1;
    ValuesOfNext(list, n);
    assert list[..n + 1] == list;
    assert list[n] !in ValuesOf(list[..n]);
  }

  /** A set has one listing. */
  lemma {:induction false} ListingIsUnique(a: seq<nat>, b: seq<nat>)
    requires StrictlyAscending(a) && StrictlyAscending(b) && ValuesOf(a) == ValuesOf(b)
    ensures a == b
  {
    hide StrictlyAscending;
    ListingLength(a, ValuesOf(a));
    ListingLength(b, ValuesOf(b));
    if a != [] {
      LastIsGreatest(a);
      LastIsGreatest(b);
      hide ValuesOf;
      ListingIsUnique(a[..|a| - 1], b[..|b| - 1]);
    }
  }

  // ---- the frontier of a decoder -----------------------------------------------------------------

  /** The members below f. */
  function Under(s: set<nat>, f: nat): set<nat> {
    set v | v in s && v < f
  }

  lemma UnderAll(s: set<nat>, f: nat)
    requires s <= Range(0, f)
    ensures Under(s, f) == s
    ensures Under(s, 0) == {}
  {
    hide Range;
  }

  /** Appending the next member. */
  lemma EmitNext(list: seq<nat>, s: set<nat>, f: nat, v: nat)
    requires IsListing(list, Under(s, f)) && v in s && f <= v
    requires forall u :: u in s ==> u < f || v <= u
    ensures IsListing(list + [v], Under(s, v + 1))
    ensures |list| < |s|
  {
    ValuesOfConcat(list, [v]);
    assert Under(s, v + 1) == Under(s, f) + {v};
    assert forall i :: 0 <= i < |list| ==> list[i] in ValuesOf(list);
    ListingLength(list + [v], Under(s, v + 1));
    SubsetIsNoLarger(Under(s, v + 1), s);
  }

  /** The word holds the members of [lo, hi), which lies inside word i. */
  ghost predicate WordHolds(w: bv64, s: set<nat>, i: nat, lo: nat, hi: nat) {
    && 64 * i <= lo <= hi <= 64 * i + 64
    && (forall k: nat :: k in Bits(w) <==> lo <= 64 * i + k < hi && 64 * i + k in s)
  }

  /** The least value not yet emitted while `w` is what is left of the word. */
  function Frontier(w: bv64, i: nat, hi: nat): nat {
    if w == 0 then hi else 64 * i + TrailingZeros(w)
  }

  /** Everything below the frontier is listed; the word holds the rest. */
  ghost predicate Emitting(list: seq<nat>, w: bv64, s: set<nat>, i: nat, hi: nat) {
    && WordHolds(w, s, i, Frontier(w, i, hi), hi)
    && IsListing(list, Under(s, Frontier(w, i, hi)))
  }

  lemma EmitStart(list: seq<nat>, w: bv64, s: set<nat>, i: nat, lo: nat, hi: nat)
    requires WordHolds(w, s, i, lo, hi) && IsListing(list, Under(s, lo))
    ensures Emitting(list, w, s, i, hi)
  {
    hide Bits, Range, TrailingZeros, StrictlyAscending, ValuesOf;
    BitsAndZero(w);
    if w != 0 {
      assert TrailingZeros(w) in Bits(w);
    }
    var f := Frontier(w, i, hi);
    forall v | v in s && lo <= v ensures f <= v {
      if v < hi {
        assert v == 64 * i + (v - 64 * i);
        assert v - 64 * i in Bits(w);
      }
    }
    assert Under(s, lo) == Under(s, f);
  }

  lemma ClearedWordHolds(w: bv64, s: set<nat>, i: nat, hi: nat)
    requires w != 0 && WordHolds(w, s, i, 64 * i + TrailingZeros(w), hi)
    ensures WordHolds(ClearLowest(w), s, i, 64 * i + TrailingZeros(w) + 1, hi)
  {
    hide Bits, Range, TrailingZeros, ClearLowest;
    assert TrailingZeros(w) in Bits(w);
  }

  /** Emitting the lowest bit and clearing it. */
  lemma EmitBit(list: seq<nat>, w: bv64, s: set<nat>, i: nat, hi: nat)
    requires Emitting(list, w, s, i, hi) && w != 0
    ensures Emitting(list + [64 * i + TrailingZeros(w)], ClearLowest(w), s, i, hi)
    ensures |list| < |s|
    ensures 64 * i + TrailingZeros(w) in s
  {
    hide Bits, Range, TrailingZeros, ClearLowest, IsListing, Under;
    var v := 64 * i + TrailingZeros(w);
    assert TrailingZeros(w) in Bits(w);
    EmitNext(list, s, v, v);
    ClearedWordHolds(w, s, i, hi);
    hide Frontier, WordHolds;
    EmitStart(list + [v], ClearLowest(w), s, i, v + 1, hi);
  }

  lemma EmitEnd(list: seq<nat>, s: set<nat>, i: nat, hi: nat)
    requires Emitting(list, 0, s, i, hi)
    ensures IsListing(list, Under(s, hi))
  {
  }

  /** A whole word of a block. */
  lemma BlockWordHolds(words: seq<bv64>, i: nat)
    requires i < |words|
    ensures WordHolds(words[i], Members(words), i, 64 * i, 64 * i + 64)
  {
    hide Bits, Range, Has, Members, WordOf, BitOf;
    forall k: nat ensures k in Bits(words[i]) <==> 64 * i <= 64 * i + k < 64 * i + 64 && 64 * i + k in Members(words) {
      if k < 64 {
        MemberBit(words, i, k);
      }
    }
  }
}
