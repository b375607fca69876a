/** Sorted disjoint closed runs, the values they cover, and the word masks a run is walked with. */
module Runs {
  import opened Word64
  import opened WordSets

  datatype Run = Run(begin: nat, end: nat)

  /** Sorted, disjoint, inside [0, limit); neighbours may touch and may share a word. */
  ghost predicate SortedRuns(runs: seq<Run>, limit: nat)
  {
    && (forall i :: 0 <= i < |runs| ==> runs[i].begin <= runs[i].end < limit)
    && (forall i, j :: 0 <= i < j < |runs| ==> runs[i].end < runs[j].begin)
  }

  ghost predicate Covered(runs: seq<Run>, v: nat)
  {
    exists i :: 0 <= i < |runs| && runs[i].begin <= v <= runs[i].end
  }

  /** The covered values below p. */
  ghost function CoveredBelow(runs: seq<Run>, p: nat): set<nat>
  {
    set v | v in Range(0, p) && Covered(runs, v)
  }

  /** The first value past the first r runs. */
  function Done(runs: seq<Run>, r: nat): nat
    requires r <= |runs|
  {
    if r == 0 then 0 else runs[r - 1].end + 1
  }

  /** Nothing between two neighbouring runs is covered. */
  lemma GapIsUncovered(runs: seq<Run>, r: nat, limit: nat)
    requires SortedRuns(runs, limit) && r <= |runs|
    ensures r < |runs| ==> Done(runs, r) <= runs[r].begin && CoveredBelow(runs, runs[r].begin) == CoveredBelow(runs, Done(runs, r))
    ensures r == |runs| ==> Done(runs, r) <= limit && CoveredBelow(runs, limit) == CoveredBelow(runs, Done(runs, r))
  {
    hide Range;
    var stop := if r < |runs| then runs[r].begin else limit;
    forall v: nat | Done(runs, r) <= v < stop ensures !Covered(runs, v) {
      if Covered(runs, v) {
        var i :| 0 <= i < |runs| && runs[i].begin <= v <= runs[i].end;
        assert false;
      }
    }
    assert CoveredBelow(runs, stop) == CoveredBelow(runs, Done(runs, r));
  }

  /** Inside a run everything is covered. */
  lemma CoveredStep(runs: seq<Run>, r: nat, lo: nat, hi: nat)
    requires r < |runs| && runs[r].begin <= lo <= hi <= runs[r].end + 1
    ensures CoveredBelow(runs, hi) == CoveredBelow(runs, lo) + Range(lo, hi)
    ensures CoveredBelow(runs, lo) !! Range(lo, hi)
  {
    hide Range;
    assert forall v: nat :: lo <= v < hi ==> Covered(runs, v);
  }

  // ---- one run's part of one word ----------------------------------------------------------------

  /** The first value of word i inside the run. */
  function PartBegin(run: Run, i: nat): (lo: nat) {
    if run.begin < 64 * i then 64 * i else run.begin
  }

  /** The first value past the run or past word i, whichever comes first. */
  function PartEnd(run: Run, i: nat): (hi: nat) {
    if run.end < 64 * i + 64 then run.end + 1 else 64 * i + 64
  }

  /** A mask covering the run's part of word i. */
  ghost predicate MasksPart(mask: bv64, run: Run, i: nat)
    requires run.begin <= run.end && WordOf(run.begin) <= i <= WordOf(run.end)
  {
    Bits(mask) == Range(PartBegin(run, i) - 64 * i, PartEnd(run, i) - 64 * i)
  }

  /** The three masks of the run walk (first word, last word, the word of a run inside one word). */
  lemma RunMasks(run: Run)
    requires run.begin <= run.end
    ensures var first, last := FirstMask(BitOf(run.begin)), LastMask(BitOf(run.end));
            && (WordOf(run.begin) == WordOf(run.end) ==> MasksPart(And(first, last), run, WordOf(run.begin)))
            && (WordOf(run.begin) < WordOf(run.end) ==>
                  MasksPart(first, run, WordOf(run.begin)) && MasksPart(last, run, WordOf(run.end)))
  {
    hide Bits, Range, FirstMask, LastMask, And, WordOf, BitOf;
  }

  lemma FullWordMask(run: Run, i: nat)
    requires run.begin <= run.end && WordOf(run.begin) < i < WordOf(run.end)
    ensures MasksPart(0xFFFF_FFFF_FFFF_FFFF, run, i)
  {
    hide Bits, Range, WordOf, BitOf;
    BitsOfAllOnes();
  }

  /** Applying a mask to one word applies the masked values to the set. */
  lemma MembersOfMasking(op: SetOperation, words: seq<bv64>, i: nat, mask: bv64, run: Run)
    requires i < |words| && !op.BitAnd?
    requires run.begin <= run.end && WordOf(run.begin) <= i <= WordOf(run.end)
    requires MasksPart(mask, run, i)
    ensures Members(words[i := ApplyWord(op, words[i], mask)])
         == ApplySet(op, Members(words), Range(PartBegin(run, i), PartEnd(run, i)))
  {
    hide Has, Members, Bits, Range, WordOf, BitOf, ApplyWord;
    var after := words[i := ApplyWord(op, words[i], mask)];
    var part := Range(PartBegin(run, i), PartEnd(run, i));
    forall v: nat ensures v in Members(after) <==> v in ApplySet(op, Members(words), part) {
      MemberParts(words, v);
      MemberParts(after, v);
      assert WordOf(v) == i ==> (v in part <==> BitOf(v) in Bits(mask));
      assert WordOf(v) != i ==> v !in part;
    }
  }

  /** Merging the masked source word into one word adds the masked members of the source. */
  lemma MembersOfMerging(words: seq<bv64>, src: seq<bv64>, i: nat, mask: bv64, masked: bv64, w: bv64, run: Run)
    requires i < |words| == |src|
    requires run.begin <= run.end && WordOf(run.begin) <= i <= WordOf(run.end)
    requires MasksPart(mask, run, i)
    requires Bits(masked) == Bits(src[i]) * Bits(mask)
    requires Bits(w) == Bits(words[i]) + Bits(masked)
    ensures Members(words[i := w]) == Members(words) + Members(src) * Range(PartBegin(run, i), PartEnd(run, i))
  {
    hide Has, Members, Bits, Range, WordOf, BitOf;
    var after := words[i := w];
    var part := Range(PartBegin(run, i), PartEnd(run, i));
    forall v: nat ensures v in Members(after) <==> v in Members(words) + Members(src) * part {
      MemberParts(words, v);
      MemberParts(src, v);
      MemberParts(after, v);
      assert WordOf(v) == i ==> (v in part <==> BitOf(v) in Bits(mask));
      assert WordOf(v) != i ==> v !in part;
    }
  }
}
