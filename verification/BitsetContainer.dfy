/** The bitset container and its in-place kernels. `View()` is the abstract header; every kernel is
    proved to take exactly the `LazyCount.Step` of its operation. */
module BitsetContainer {
  import opened Word64
  import opened WordSets
  import opened Runs
  import opened Listing
  import opened LazyCount

  /** The first n words combined, the others as they were. */
  function Front(op: SetOperation, a: seq<bv64>, b: seq<bv64>, n: nat): seq<bv64>
    requires |a| == |b| && n <= |a|
  {
    seq(|a|, i requires 0 <= i < |a| => if i < n then ApplyWord(op, a[i], b[i]) else a[i])
  }

  lemma FrontNext(op: SetOperation, a: seq<bv64>, b: seq<bv64>, n: nat)
    requires |a| == |b| && n < |a|
    ensures Front(op, a, b, n)[n := ApplyWord(op, a[n], b[n])] == Front(op, a, b, n + 1)
    ensures Front(op, a, b, n)[n] == a[n]
  {
    hide Bits, Range, ApplySet, ApplyWord;
  }

  lemma FrontEnds(op: SetOperation, a: seq<bv64>, b: seq<bv64>)
    requires |a| == |b|
    ensures Front(op, a, b, 0) == a
    ensures Front(op, a, b, |a|) == Combined(op, a, b)
  {
    hide Bits, Range, ApplySet, ApplyWord;
  }

  /** Overwriting the next word extends the counted prefix by that word. */
  lemma CountOfFront(words: seq<bv64>, i: nat, w: bv64)
    requires i < |words|
    ensures Count(words[i := w][..i + 1]) == Count(words[..i]) + PopCount(w)
  {
    hide Bits, PopCount;
    CountOfNext(words[i := w], i);
    assert words[i := w][..i] == words[..i];
  }

  /** The plain fused loop: combine, store, count. `rhs` may be the very block combined into. */
  method CombineAndCount(op: SetOperation, a: array<bv64>, b: array<bv64>) returns (cardinality: nat)
    requires a.Length == b.Length
    modifies a
    ensures a[..] == Combined(op, old(a[..]), old(b[..]))
    ensures cardinality == Count(a[..])
  {
    hide Bits, Range, Has, Members, WordOf, BitOf, PopCount, ApplyWord, Count, Combined;
    ghost var a0, b0 := a[..], b[..];
    cardinality := 0;
    var i := 0;
    FrontEnds(op, a0, b0);
    CountOfNothing();
    while i < a.Length
      invariant i <= a.Length
      invariant a[..] == Front(op, a0, b0, i)
      invariant b[i..] == b0[i..]
      invariant cardinality == Count(a[..i])
    {
      FrontNext(op, a0, b0, i);
      assert b[i] == b[i..][0] == b0[i];
      CountOfFront(a[..], i, ApplyWord(op, a[i], b[i]));
      assert a[..][..i] == a[..i];
      ghost var before := a[..];
      a[i] := ApplyWord(op, a[i], b[i]);
      assert a[..] == before[i := a[i]];
      assert a[..i + 1] == a[..][..i + 1];
      cardinality := cardinality + PopCount(a[i]);
      i := i + 1;
    }
    assert a[..i] == a[..];
  }

  lemma CountOfNothing()
    ensures Count([]) == 0
  {
  }

  /** popcount_words. */
  method PopCountWords(words: array<bv64>) returns (n: nat)
    ensures n == |Members(words[..])|
  {
    hide Bits, Range, Has, Members, WordOf, BitOf, PopCount;
    n := 0;
    for i := 0 to words.Length
      invariant n == Count(words[..i])
    {
      CountOfNext(words[..], i);
      assert words[..][..i] == words[..i] && words[..][..i + 1] == words[..i + 1];
      n := n + PopCount(words[i]);
    }
    assert words[..words.Length] == words[..];
    CountIsCardinality(words[..]);
  }

  // ---- how one word's change moves the set and the count -----------------------------------------

  lemma PopCountsOfMasking(w: bv64, m: bv64)
    ensures PopCount(Or(w, m)) == PopCount(w) + PopCount(AndNot(m, w))
    ensures PopCount(AndNot(w, m)) == PopCount(w) - PopCount(And(m, w))
  {
    hide Bits, Range, Or, And, AndNot;
    var a, b := Bits(w), Bits(m);
    DifferenceSizes(a, b);
  }

  lemma PopCountsOfOneBit(w: bv64, k: nat)
    requires k < 64
    ensures PopCount(Or(w, OneBit(k))) == PopCount(w) + if k in Bits(w) then 0 else 1
    ensures PopCount(AndNot(w, OneBit(k))) == PopCount(w) - if k in Bits(w) then 1 else 0
    ensures PopCount(Xor(w, OneBit(k))) == PopCount(w) + if k in Bits(w) then -1 else 1
  {
    hide Bits, Range, Or, And, AndNot, Xor, OneBit;
    var a := Bits(w);
    if k in a {
      assert a + {k} == a && (a - {k}) + ({k} - a) == a - {k};
    } else {
      assert a - {k} == a && (a - {k}) + ({k} - a) == a + {k};
    }
  }

  lemma MembersWithFlip(words: seq<bv64>, v: nat)
    requires WordOf(v) < |words|
    ensures Members(words[WordOf(v) := Xor(words[WordOf(v)], OneBit(BitOf(v)))]) == ApplySet(BitXor, Members(words), {v})
  {
    hide Has, Members, Bits, Range, WordOf, BitOf, Xor, OneBit;
    var after := words[WordOf(v) := Xor(words[WordOf(v)], OneBit(BitOf(v)))];
    forall u: nat ensures u in Members(after) <==> u in ApplySet(BitXor, Members(words), {v}) {
      MemberParts(words, u);
      MemberParts(after, u);
    }
  }

  lemma MembersOfMask(words: seq<bv64>, i: nat, mask: bv64)
    requires i < |words|
    ensures Members(words[i := Or(words[i], mask)]) == Members(words) + Lifted(Bits(mask), 64 * i)
  {
    hide Has, Members, Bits, Range, WordOf, BitOf, Or;
    var after := words[i := Or(words[i], mask)];
    forall u: nat ensures u in Members(after) <==> u in Members(words) + Lifted(Bits(mask), 64 * i) {
      MemberParts(words, u);
      MemberParts(after, u);
    }
  }

  lemma MaskGrows(mask: bv64, value: nat, held: seq<nat>)
    requires Lifted(Bits(mask), 64 * WordOf(value)) == ValuesOf(held)
    ensures Lifted(Bits(Or(mask, OneBit(BitOf(value)))), 64 * WordOf(value)) == ValuesOf(held + [value])
  {
    hide Bits, Range, WordOf, BitOf, Or, OneBit;
    var d := 64 * WordOf(value);
    var grown := Or(mask, OneBit(BitOf(value)));
    assert Lifted(Bits(grown), d) == Lifted(Bits(mask), d) + {value};
  }

  lemma NothingBelowZero(runs: seq<Run>)
    ensures CoveredBelow(runs, 0) == {}
  {
  }

  lemma CoveredBelowIsBelow(runs: seq<Run>, p: nat)
    ensures CoveredBelow(runs, p) <= Range(0, p)
  {
  }

  lemma RunInside(runs: seq<Run>, r: nat, limit: nat)
    requires SortedRuns(runs, limit) && r < |runs|
    ensures runs[r].begin <= runs[r].end < limit
  {
  }

  /** One mask of the walk moves the frontier of processed values to the end of its part. */
  lemma MaskingStep(op: SetOperation, words: seq<bv64>, runs: seq<Run>, r: nat, i: nat, mask: bv64, m0: set<nat>)
    requires r < |runs| && i < |words| && !op.BitAnd?
    requires runs[r].begin <= runs[r].end && WordOf(runs[r].begin) <= i <= WordOf(runs[r].end)
    requires MasksPart(mask, runs[r], i)
    requires Members(words) == ApplySet(op, m0, CoveredBelow(runs, PartBegin(runs[r], i)))
    ensures Members(words[i := ApplyWord(op, words[i], mask)]) == ApplySet(op, m0, CoveredBelow(runs, PartEnd(runs[r], i)))
  {
    hide Bits, Range, Has, Members, WordOf, BitOf, CoveredBelow, ApplyWord, MasksPart;
    var run := runs[r];
    MembersOfMasking(op, words, i, mask, run);
    CoveredStep(runs, r, PartBegin(run, i), PartEnd(run, i));
  }

  /** How the number of bits changed moves the count: up when setting, down when clearing. */
  ghost predicate CountMoved(op: SetOperation, before: nat, after: nat, changed: nat) {
    && (op.BitOr? ==> after == before + changed)
    && (op.BitAndNot? ==> after == before - changed)
  }

  /** A bitset container: a block of words, the stored count, and whether that count is stale. */
  class Bitset {
    const words: array<bv64>
    var stored: nat
    var stale: bool

    ghost function Domain(): nat {
      64 * words.Length
    }

    ghost function View(): Header
      reads this, words
    {
      Header(Members(words[..]), stored, stale)
    }

    ghost predicate Valid()
      reads this, words
    {
      Sound(View(), Domain())
    }

    /** An empty bitset. */
    constructor (wordCount: nat)
      ensures Valid() && fresh(words) && words.Length == wordCount
      ensures View() == Header({}, 0, false)
    {
      words := new bv64[wordCount](_ => 0);
      stored, stale := 0, false;
      new;
      ZeroWordsAreEmpty(words[..]);
    }

    // ---- the header ------------------------------------------------------------------------------

    /** settle_stale_cardinality, and the repair at the end of a lazy fold. */
    method SettleStale()
      requires Valid()
      modifies `stored, `stale
      ensures View() == Step(old(View()), Repair, Domain())
      ensures Valid() && !stale && stored == |View().members|
    {
      hide Bits, Range, Has, Members, WordOf, BitOf;
      ghost var h0 := View();
      LazyIsSound(h0, Repair, Domain());
      if stale {
        stored := PopCountWords(words);
        stale := false;
      }
      assert View().members == h0.members;
    }

    /** combine_bitset_bitset_inplace: the saturation shortcut, else one fused pass. */
    method Combine(op: SetOperation, rhs: array<bv64>)
      requires Valid() && rhs.Length == words.Length
      modifies this, words
      ensures View() == Step(old(View()), Change.Combine(op, old(Members(rhs[..]))), Domain())
      ensures Valid()
      ensures if op.BitOr? && old(stored) == Domain() then View() == old(View()) else IsExact(View())
    {
      hide Bits, Range, Has, Members, WordOf, BitOf, Combined, ApplySet;
      ghost var h0, a0, b0 := View(), words[..], rhs[..];
      CombineIsSound(h0, op, Members(b0), Domain());
      if op.BitOr? && stored == words.Length * 64 {
        return;
      }
      stored := CombineAndCount(op, words, rhs);
      stale := false;
      MembersOfCombined(op, a0, b0);
      CountIsCardinality(words[..]);
    }

    /** or_bitset_bitset_inplace_lazy. */
    method CombineOrLazily(rhs: array<bv64>, lanes: nat)
      requires Valid() && rhs.Length == words.Length && lanes > 0
      modifies this, words
      ensures View() == Step(old(View()), LazyOr(old(Members(rhs[..]))), Domain())
      ensures Valid()
      ensures View().members == old(View()).members + old(Members(rhs[..])) && stale && stored == old(stored)
    {
      hide Bits, Range, Has, Members, WordOf, BitOf, Step, Sound;
      StaleStep(View(), LazyOr(Members(rhs[..])), Domain());
      OrTiles(rhs, lanes);
      stale := true;
    }

    /** xor_bitset_bitset_inplace_lazy. */
    method CombineXorLazily(rhs: array<bv64>)
      requires Valid() && rhs.Length == words.Length
      modifies this, words
      ensures View() == Step(old(View()), LazyXor(old(Members(rhs[..]))), Domain())
      ensures Valid()
      ensures forall v :: v in View().members <==> (v in old(View()).members) != (v in old(Members(rhs[..])))
      ensures stale && stored == 0
    {
      hide Bits, Range, Has, Members, WordOf, BitOf, Step, Sound;
      StaleStep(View(), LazyXor(Members(rhs[..])), Domain());
      XorWords(rhs);
      stored, stale := 0, true;
    }

    /** or_array_into_bitset_inplace: the word-grouped arm for clustered values, the four-way
        unrolled arm for scattered ones. */
    method AddArrayValues(values: seq<nat>, lazy: bool)
      requires Valid() && StrictlyAscending(values) && AllBelow(values, Domain())
      modifies this, words
      ensures View() == Step(old(View()), if lazy then LazyAddArray(ValuesOf(values)) else AddArray(ValuesOf(values)), Domain())
      ensures Valid()
      ensures View().members == old(View()).members + ValuesOf(values)
      ensures values != [] ==> if lazy then stale && stored == old(stored) else IsExact(View())
    {
      hide Bits, Range, Has, Members, WordOf, BitOf, Count, Sound;
      ghost var change := if lazy then LazyAddArray(ValuesOf(values)) else AddArray(ValuesOf(values));
      ghost var m0 := Members(words[..]);
      ValuesAreBelow(values, Domain());
      if |values| == 0 {
        assert ValuesOf(values) == {};
        return;
      }
      hide Step;
      assert values[0] in ValuesOf(values);
      if lazy {
        StaleStep(View(), change, Domain());
      } else {
        ExactStep(View(), change, Domain());
        SettleStale();
      }
      ghost var united := m0 + ValuesOf(values);
      assert Step(old(View()), change, Domain()) == Header(united, if lazy then old(stored) else |united|, lazy);
      hide Operand, Meaning;
      CountIsCardinality(words[..]);
      var gained := ScatterValues(values);
      CountIsCardinality(words[..]);
      if lazy {
        stale := true;
      } else {
        stored := stored + gained;
      }
    }

    /** difference_bitset_array_inplace. */
    method RemoveArrayValues(values: seq<nat>)
      requires Valid() && AllBelow(values, Domain())
      modifies this, words
      ensures View() == Step(old(View()), RemoveArray(ValuesOf(values)), Domain())
      ensures Valid()
      ensures View().members == old(View()).members - ValuesOf(values) && IsExact(View())
    {
      hide Bits, Range, Has, Members, WordOf, BitOf, Count, Sound, Step;
      ValuesAreBelow(values, Domain());
      ExactStep(View(), RemoveArray(ValuesOf(values)), Domain());
      SettleStale();
      CountIsCardinality(words[..]);
      var removed := ClearBits(values);
      CountIsCardinality(words[..]);
      stored := stored - removed;
    }

    /** xor_array_into_bitset_inplace: the count follows the sign of each flip, or is dropped. */
    method FlipArrayValues(values: seq<nat>, lazy: bool)
      requires Valid() && StrictlyAscending(values) && AllBelow(values, Domain())
      modifies this, words
      ensures View() == Step(old(View()), if lazy then LazyFlipArray(ValuesOf(values)) else FlipArray(ValuesOf(values)), Domain())
      ensures Valid()
      ensures forall v :: v in View().members <==> (v in old(View()).members) != (v in values)
      ensures if lazy then stale && stored == 0 else IsExact(View())
    {
      hide Bits, Range, Has, Members, WordOf, BitOf, Count, Sound, Step;
      ghost var change := if lazy then LazyFlipArray(ValuesOf(values)) else FlipArray(ValuesOf(values));
      ValuesAreBelow(values, Domain());
      if lazy {
        StaleStep(View(), change, Domain());
      } else {
        ExactStep(View(), change, Domain());
        SettleStale();
      }
      CountIsCardinality(words[..]);
      var delta := FlipBits(values);
      CountIsCardinality(words[..]);
      if lazy {
        stored, stale := 0, true;
      } else {
        stored := stored + delta;
      }
    }

    /** apply_runs_to_bitset_inplace: sets or clears every value of the runs. */
    method ApplyRunValues(setting: bool, runs: seq<Run>)
      requires Valid() && SortedRuns(runs, Domain())
      modifies this, words
      ensures var values := CoveredBelow(runs, Domain());
              View() == Step(old(View()), if setting then AddRuns(values) else RemoveRuns(values), Domain())
      ensures Valid()
      ensures var values := CoveredBelow(runs, Domain());
              View().members == if setting then old(View()).members + values else old(View()).members - values
      ensures IsExact(View())
    {
      hide Bits, Range, Has, Members, WordOf, BitOf, Count, CoveredBelow, SortedRuns, Sound, Step;
      ghost var values := CoveredBelow(runs, Domain());
      CoveredBelowIsBelow(runs, Domain());
      ExactStep(View(), if setting then AddRuns(values) else RemoveRuns(values), Domain());
      SettleStale();
      CountIsCardinality(words[..]);
      var changed := WalkRuns(if setting then BitOr else BitAndNot, runs);
      CountIsCardinality(words[..]);
      stored := if setting then stored + changed else stored - changed;
    }

    /** xor_runs_into_bitset_inplace: flipped, then counted once unless lazy. */
    method FlipRunValues(runs: seq<Run>, lazy: bool)
      requires Valid() && SortedRuns(runs, Domain())
      modifies this, words
      ensures var values := CoveredBelow(runs, Domain());
              View() == Step(old(View()), if lazy then LazyFlipRuns(values) else FlipRuns(values), Domain())
      ensures Valid()
      ensures var values := CoveredBelow(runs, Domain());
              forall v :: v in View().members <==> (v in old(View()).members) != (v in values)
      ensures if lazy then stale && stored == 0 else IsExact(View())
    {
      hide Bits, Range, Has, Members, WordOf, BitOf, Count, CoveredBelow, SortedRuns, Sound, Step;
      ghost var values := CoveredBelow(runs, Domain());
      ghost var flipped := ApplySet(BitXor, View().members, values);
      ghost var change := if lazy then LazyFlipRuns(values) else FlipRuns(values);
      CoveredBelowIsBelow(runs, Domain());
      if lazy {
        StaleStep(View(), change, Domain());
      } else {
        ExactStep(View(), change, Domain());
      }
      assert Step(View(), change, Domain()) == Header(flipped, if lazy then 0 else |flipped|, lazy);
      hide CountMoved, Operand, Meaning, ApplySet;
      var ignored := WalkRuns(BitXor, runs);
      if lazy {
        stored, stale := 0, true;
      } else {
        stored := PopCountWords(words);
        stale := false;
      }
    }

    /** The single-value add of the container: the count moves, a stale one stays stale. */
    method Add(value: nat) returns (added: bool)
      requires Valid() && value < Domain()
      modifies this, words
      ensures View() == Step(old(View()), AddValue(value), Domain())
      ensures added == (value !in old(View()).members)
      ensures Valid()
      ensures View().members == old(View()).members + {value}
      ensures !old(stale) ==> IsExact(View())
    {
      hide Bits, Range, Has, Members, WordOf, BitOf, TestMask, Sound;
      SingleIsSound(View(), AddValue(value), Domain());
      if !stale {
        ExactStaysExact(View(), AddValue(value), Domain());
      }
      MemberParts(words[..], value);
      if TestMask(words[WordOf(value)], BitOf(value)) {
        return false;
      }
      var ignored := SetBit(value);
      stored := stored + 1;
      return true;
    }

    /** The single-value remove of the container: a stale count is settled before the bit changes. */
    method Remove(value: nat) returns (removed: bool)
      requires Valid() && value < Domain()
      modifies this, words
      ensures View() == Step(old(View()), RemoveValue(value), Domain())
      ensures removed == (value in old(View()).members)
      ensures Valid()
      ensures View().members == old(View()).members - {value}
      ensures removed || !old(stale) ==> IsExact(View())
    {
      hide Bits, Range, Has, Members, WordOf, BitOf, TestMask, AndNot, OneBit, Sound;
      SingleIsSound(View(), RemoveValue(value), Domain());
      if !stale {
        ExactStaysExact(View(), RemoveValue(value), Domain());
      }
      MemberParts(words[..], value);
      if !TestMask(words[WordOf(value)], BitOf(value)) {
        return false;
      }
      hide Step;
      ExactStep(View(), RemoveValue(value), Domain());
      SettleStale();
      ghost var before := words[..];
      words[WordOf(value)] := AndNot(words[WordOf(value)], OneBit(BitOf(value)));
      assert words[..] == before[WordOf(value) := AndNot(before[WordOf(value)], OneBit(BitOf(value)))];
      MembersWithoutBit(before, value, AndNot(before[WordOf(value)], OneBit(BitOf(value))));
      stored := stored - 1;
      return true;
    }

    // ---- the words -------------------------------------------------------------------------------

    /** Tiles of `lanes` words at a time, then the words left over. */
    method OrTiles(rhs: array<bv64>, lanes: nat)
      requires rhs.Length == words.Length && lanes > 0
      modifies words
      ensures Members(words[..]) == old(Members(words[..])) + old(Members(rhs[..]))
    {
      hide Bits, Range, Has, Members, WordOf, BitOf, Or;
      ghost var a0, b0 := words[..], rhs[..];
      var at := 0;
      while at + lanes <= words.Length
        invariant at <= words.Length
        invariant forall j :: 0 <= j < words.Length ==> words[j] == if j < at then Or(a0[j], b0[j]) else a0[j]
        invariant forall j :: at <= j < words.Length ==> rhs[j] == b0[j]
      {
        forall j | at <= j < at + lanes {
          words[j] := Or(words[j], rhs[j]);
        }
        at := at + lanes;
      }
      while at < words.Length
        invariant at <= words.Length
        invariant forall j :: 0 <= j < words.Length ==> words[j] == if j < at then Or(a0[j], b0[j]) else a0[j]
        invariant forall j :: at <= j < words.Length ==> rhs[j] == b0[j]
      {
        words[at] := Or(words[at], rhs[at]);
        at := at + 1;
      }
      assert words[..] == Combined(BitOr, a0, b0);
      MembersOfCombined(BitOr, a0, b0);
    }

    method XorWords(rhs: array<bv64>)
      requires rhs.Length == words.Length
      modifies words
      ensures Members(words[..]) == ApplySet(BitXor, old(Members(words[..])), old(Members(rhs[..])))
    {
      hide Bits, Range, Has, Members, WordOf, BitOf, Xor, ApplySet;
      ghost var a0, b0 := words[..], rhs[..];
      for at := 0 to words.Length
        invariant forall j :: 0 <= j < words.Length ==> words[j] == if j < at then Xor(a0[j], b0[j]) else a0[j]
        invariant forall j :: at <= j < words.Length ==> rhs[j] == b0[j]
      {
        words[at] := Xor(words[at], rhs[at]);
      }
      assert words[..] == Combined(BitXor, a0, b0);
      MembersOfCombined(BitXor, a0, b0);
    }

    /** Sets one value's bit; returns 1 when it was clear. */
    method SetBit(value: nat) returns (gained: nat)
      requires value < Domain()
      modifies words
      ensures Members(words[..]) == old(Members(words[..])) + {value}
      ensures Count(words[..]) == old(Count(words[..])) + gained
    {
      hide Bits, Range, Has, Members, WordOf, BitOf, Or, OneBit, TestMask, Count, PopCount;
      var index, bit := WordOf(value), OneBit(BitOf(value));
      ghost var before := words[..];
      gained := if TestMask(words[index], BitOf(value)) then 0 else 1;
      words[index] := Or(words[index], bit);
      assert words[..] == before[index := Or(before[index], bit)];
      MembersWithBit(before, value, Or(before[index], bit));
      CountOfUpdate(before, index, Or(before[index], bit));
      PopCountsOfOneBit(before[index], BitOf(value));
    }

    /** Merges a mask of one word's values; returns how many of them were clear. */
    method MergeMask(index: nat, mask: bv64) returns (gained: nat)
      requires index < words.Length
      modifies words
      ensures Members(words[..]) == old(Members(words[..])) + Lifted(Bits(mask), 64 * index)
      ensures Count(words[..]) == old(Count(words[..])) + gained
    {
      hide Bits, Range, Has, Members, WordOf, BitOf, Or, AndNot, Count, PopCount;
      ghost var before := words[..];
      gained := PopCount(AndNot(mask, words[index]));
      words[index] := Or(words[index], mask);
      assert words[..] == before[index := Or(before[index], mask)];
      PopCountsOfMasking(before[index], mask);
      CountOfUpdate(before, index, Or(before[index], mask));
      MembersOfMask(before, index, mask);
    }

    /** The mask of the values from `start` on that share its word, and where they end. */
    static method GatherMask(values: seq<nat>, start: nat) returns (mask: bv64, next: nat)
      requires start < |values|
      ensures start < next <= |values|
      ensures Lifted(Bits(mask), 64 * WordOf(values[start])) == ValuesOf(values[start..next])
    {
      hide Bits, Range, WordOf, BitOf, Or, OneBit;
      next := start;
      var value := values[next];
      var index := WordOf(value);
      mask := 0;
      BitsOfZero();
      assert values[start..next] == [];
      while true
        invariant start <= next < |values| && value == values[next] && WordOf(value) == index == WordOf(values[start])
        invariant Lifted(Bits(mask), 64 * index) == ValuesOf(values[start..next])
        decreases |values| - next
      {
        MaskGrows(mask, value, values[start..next]);
        assert values[start..next + 1] == values[start..next] + [value];
        mask := Or(mask, OneBit(BitOf(value)));
        next := next + 1;
        if next == |values| {
          break;
        }
        value := values[next];
        if WordOf(value) != index {
          break;
        }
      }
    }

    /** One mask per word that holds values. */
    method AddGrouped(values: seq<nat>) returns (gained: nat)
      requires |values| > 0 && AllBelow(values, Domain())
      modifies words
      ensures Members(words[..]) == old(Members(words[..])) + ValuesOf(values)
      ensures Count(words[..]) == old(Count(words[..])) + gained
    {
      hide Bits, Range, Has, Members, WordOf, BitOf, Count, Lifted;
      ghost var m0, c0 := Members(words[..]), Count(words[..]);
      var next := 0;
      gained := 0;
      while next < |values|
        invariant next <= |values|
        invariant Members(words[..]) == m0 + ValuesOf(values[..next])
        invariant Count(words[..]) == c0 + gained
      {
        var start := next;
        var mask;
        mask, next := GatherMask(values, start);
        assert values[start] < Domain();
        var more := MergeMask(WordOf(values[start]), mask);
        gained := gained + more;
        assert values[..next] == values[..start] + values[start..next];
      }
      assert values[..next] == values;
    }

    /** The word-grouped arm for clustered values, the unrolled arm for scattered ones. */
    method ScatterValues(values: seq<nat>) returns (gained: nat)
      requires |values| > 0 && StrictlyAscending(values) && AllBelow(values, Domain())
      modifies words
      ensures Members(words[..]) == old(Members(words[..])) + ValuesOf(values)
      ensures Count(words[..]) == old(Count(words[..])) + gained
    {
      hide Bits, Range, Has, Members, Count;
      var count := |values|;
      var span := values[count - 1] - values[0] + 1;
      if span <= 16 * count {
        gained := AddGrouped(values);
      } else {
        gained := AddUnrolled(values);
      }
    }

    /** One turn of the unrolled loop. */
    method SetFour(values: seq<nat>, at: nat) returns (gained: nat)
      requires at + 4 <= |values| && AllBelow(values, Domain())
      modifies words
      ensures forall m: set<nat> :: old(Members(words[..])) == m + ValuesOf(values[..at])
                               ==> Members(words[..]) == m + ValuesOf(values[..at + 4])
      ensures Count(words[..]) == old(Count(words[..])) + gained
    {
      hide Bits, Range, Has, Members, WordOf, BitOf, Count, PopCount, ValuesOf;
      var g0 := SetBit(values[at]);
      var g1 := SetBit(values[at + 1]);
      var g2 := SetBit(values[at + 2]);
      var g3 := SetBit(values[at + 3]);
      gained := g0 + g1 + g2 + g3;
      ValuesOfNext(values, at);
      ValuesOfNext(values, at + 1);
      ValuesOfNext(values, at + 2);
      ValuesOfNext(values, at + 3);
    }

    /** Four bits at a time, then the values left over. */
    method AddUnrolled(values: seq<nat>) returns (gained: nat)
      requires AllBelow(values, Domain())
      modifies words
      ensures Members(words[..]) == old(Members(words[..])) + ValuesOf(values)
      ensures Count(words[..]) == old(Count(words[..])) + gained
    {
      hide Bits, Range, Has, Members, WordOf, BitOf, Count, PopCount;
      ghost var m0, c0 := Members(words[..]), Count(words[..]);
      var scatter := 0;
      gained := 0;
      while scatter + 4 <= |values|
        invariant scatter <= |values|
        invariant Members(words[..]) == m0 + ValuesOf(values[..scatter])
        invariant Count(words[..]) == c0 + gained
      {
        var more := SetFour(values, scatter);
        gained := gained + more;
        scatter := scatter + 4;
      }
      while scatter < |values|
        invariant scatter <= |values|
        invariant Members(words[..]) == m0 + ValuesOf(values[..scatter])
        invariant Count(words[..]) == c0 + gained
      {
        var g := SetBit(values[scatter]);
        gained := gained + g;
        ValuesOfNext(values, scatter);
        scatter := scatter + 1;
      }
      assert values[..scatter] == values;
    }

    /** Clears every value's bit; returns how many were set. Repeated values are counted once. */
    method ClearBits(values: seq<nat>) returns (removed: nat)
      requires AllBelow(values, Domain())
      modifies words
      ensures Members(words[..]) == old(Members(words[..])) - ValuesOf(values)
      ensures Count(words[..]) == old(Count(words[..])) - removed
    {
      hide Bits, Range, Has, Members, WordOf, BitOf, AndNot, OneBit, TestMask, Count, PopCount;
      ghost var m0, c0 := Members(words[..]), Count(words[..]);
      removed := 0;
      for j := 0 to |values|
        invariant Members(words[..]) == m0 - ValuesOf(values[..j])
        invariant Count(words[..]) == c0 - removed
      {
        var value := values[j];
        var index, mask := WordOf(value), OneBit(BitOf(value));
        ghost var before := words[..];
        removed := removed + if TestMask(words[index], BitOf(value)) then 1 else 0;
        words[index] := AndNot(words[index], mask);
        assert words[..] == before[index := AndNot(before[index], mask)];
        MembersWithoutBit(before, value, AndNot(before[index], mask));
        CountOfUpdate(before, index, AndNot(before[index], mask));
        PopCountsOfOneBit(before[index], BitOf(value));
        ValuesOfNext(values, j);
      }
      assert values[..|values|] == values;
    }

    /** Flips every value's bit; returns the signed sum of the flips. */
    method FlipBits(values: seq<nat>) returns (delta: int)
      requires StrictlyAscending(values) && AllBelow(values, Domain())
      modifies words
      ensures Members(words[..]) == ApplySet(BitXor, old(Members(words[..])), ValuesOf(values))
      ensures Count(words[..]) == old(Count(words[..])) + delta
    {
      hide Bits, Range, Has, Members, WordOf, BitOf, Xor, OneBit, TestBit, Count, PopCount;
      ghost var m0, c0 := Members(words[..]), Count(words[..]);
      delta := 0;
      for j := 0 to |values|
        invariant Members(words[..]) == ApplySet(BitXor, m0, ValuesOf(values[..j]))
        invariant Count(words[..]) == c0 + delta
      {
        var value := values[j];
        var index := WordOf(value);
        ghost var before := words[..];
        delta := delta + 1 - 2 * if TestBit(words[index], BitOf(value)) then 1 else 0;
        words[index] := Xor(words[index], OneBit(BitOf(value)));
        assert words[..] == before[index := Xor(before[index], OneBit(BitOf(value)))];
        MembersWithFlip(before, value);
        CountOfUpdate(before, index, Xor(before[index], OneBit(BitOf(value))));
        PopCountsOfOneBit(before[index], BitOf(value));
        ValuesOfNext(values, j);
        assert value !in ValuesOf(values[..j]);
      }
      assert values[..|values|] == values;
    }

    // ---- the run walk ----------------------------------------------------------------------------

    /** One word of the run walk: set, clear or flip the masked bits; set and clear count the change. */
    method ApplyMask(op: SetOperation, index: nat, mask: bv64) returns (changed: nat)
      requires index < words.Length && !op.BitAnd?
      modifies words
      ensures words[..] == old(words[..])[index := ApplyWord(op, old(words[index]), mask)]
      ensures CountMoved(op, old(Count(words[..])), Count(words[..]), changed)
    {
      hide Bits, Range, Has, Members, And, AndNot, Or, Xor, Count, PopCount;
      ghost var before := words[..];
      PopCountsOfMasking(before[index], mask);
      CountOfUpdate(before, index, ApplyWord(op, before[index], mask));
      changed := if op.BitOr? then PopCount(AndNot(mask, words[index]))
                 else if op.BitAndNot? then PopCount(And(mask, words[index]))
                 else 0;
      words[index] := ApplyWord(op, words[index], mask);
    }

    /** for_each_run_word_mask with the three callbacks of the run kernels. */
    method WalkRuns(op: SetOperation, runs: seq<Run>) returns (changed: nat)
      requires SortedRuns(runs, Domain()) && !op.BitAnd?
      modifies words
      ensures Members(words[..]) == ApplySet(op, old(Members(words[..])), CoveredBelow(runs, Domain()))
      ensures CountMoved(op, old(Count(words[..])), Count(words[..]), changed)
    {
      hide Bits, Range, Has, Members, WordOf, BitOf, Count, CoveredBelow, ApplyWord;
      ghost var m0, c0 := Members(words[..]), Count(words[..]);
      changed := 0;
      NothingBelowZero(runs);
      for r := 0 to |runs|
        invariant Members(words[..]) == ApplySet(op, m0, CoveredBelow(runs, Done(runs, r)))
        invariant CountMoved(op, c0, Count(words[..]), changed)
      {
        GapIsUncovered(runs, r, Domain());
        var more := WalkRun(op, runs, r, m0);
        changed := changed + more;
      }
      GapIsUncovered(runs, |runs|, Domain());
    }

    /** The words of one run. */
    method WalkRun(op: SetOperation, runs: seq<Run>, r: nat, ghost m0: set<nat>) returns (changed: nat)
      requires r < |runs| && SortedRuns(runs, Domain()) && !op.BitAnd?
      requires Members(words[..]) == ApplySet(op, m0, CoveredBelow(runs, runs[r].begin))
      modifies words
      ensures Members(words[..]) == ApplySet(op, m0, CoveredBelow(runs, runs[r].end + 1))
      ensures CountMoved(op, old(Count(words[..])), Count(words[..]), changed)
    {
      hide Bits, Range, Has, Members, WordOf, BitOf, Count, CoveredBelow, ApplyWord, ApplySet, FirstMask, LastMask, And, SortedRuns, MasksPart;
      RunInside(runs, r, Domain());
      ghost var c0 := Count(words[..]);
      var run := runs[r];
      var firstWord, lastWord := WordOf(run.begin), WordOf(run.end);
      var firstMask, lastMask := FirstMask(BitOf(run.begin)), LastMask(BitOf(run.end));
      RunMasks(run);
      if firstWord == lastWord {
        changed := MaskPart(op, runs, r, firstWord, And(firstMask, lastMask), m0);
        return;
      }
      changed := MaskPart(op, runs, r, firstWord, firstMask, m0);
      var index := firstWord + 1;
      while index < lastWord
        invariant firstWord < index <= lastWord
        invariant Members(words[..]) == ApplySet(op, m0, CoveredBelow(runs, PartBegin(run, index)))
        invariant CountMoved(op, c0, Count(words[..]), changed)
      {
        FullWordMask(run, index);
        var more := MaskPart(op, runs, r, index, 0xFFFF_FFFF_FFFF_FFFF, m0);
        changed := changed + more;
        index := index + 1;
      }
      var more := MaskPart(op, runs, r, lastWord, lastMask, m0);
      changed := changed + more;
    }

    /** The callback on one word of a run: the frontier of processed values moves past it. */
    method MaskPart(op: SetOperation, runs: seq<Run>, ghost r: nat, i: nat, mask: bv64, ghost m0: set<nat>) returns (changed: nat)
      requires r < |runs| && i < words.Length && !op.BitAnd?
      requires runs[r].begin <= runs[r].end && WordOf(runs[r].begin) <= i <= WordOf(runs[r].end)
      requires MasksPart(mask, runs[r], i)
      requires Members(words[..]) == ApplySet(op, m0, CoveredBelow(runs, PartBegin(runs[r], i)))
      modifies words
      ensures Members(words[..]) == ApplySet(op, m0, CoveredBelow(runs, PartEnd(runs[r], i)))
      ensures CountMoved(op, old(Count(words[..])), Count(words[..]), changed)
    {
      hide Bits, Range, Has, Members, WordOf, BitOf, Count, CoveredBelow, ApplyWord, ApplySet, MasksPart;
      MaskingStep(op, words[..], runs, r, i, mask, m0);
      changed := ApplyMask(op, i, mask);
    }
  }
}
